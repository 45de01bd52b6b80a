/**
 Merging the signatures of a partly signed input into public key order.

 Decoding a signature text and verifying a signature against a key are left open:
 they are parameters of every claim.
 */
module SignatureMerge {

  datatype Option<+T> = None | Some(value: T)

  /** What is fixed while one input is merged. */
  datatype Input = Input(
    decode: string -> Option<string>,
    verify: (string, string) -> bool,
    incoming: seq<string>,
    device: Option<string>)
  {
    /** The signature text decodes and verifies against the key. */
    predicate Good(key: string, text: string) {
      decode(text).Some? && verify(key, decode(text).value)
    }

    /** How many of the first j incoming signatures are good for the key. */
    function Matches(key: string, j: nat): nat
      requires j <= |incoming|
    {
      if j == 0 then 0 else Matches(key, j - 1) + (if Good(key, incoming[j - 1]) then 1 else 0)
    }

    predicate Covered(key: string) {
      Matches(key, |incoming|) > 0
    }

    /** There is a signature of the device and it is good for the key. */
    predicate DeviceGood(key: string) {
      device.Some? && Good(key, device.value)
    }
  }

  datatype Source = Incoming(j: nat) | Device

  /** A signature of the result: the position of the key it was verified against, and where it came from. */
  datatype Placed = Placed(key: nat, source: Source)

  function Text(input: Input, p: Placed): string
    requires p.source.Incoming? ==> p.source.j < |input.incoming|
  {
    match p.source
    case Incoming(j) => input.incoming[j]
    case Device => if input.device.Some? then input.device.value else ""
  }

  /** The placements of key k among the first j incoming signatures. */
  function PlacedIncoming(input: Input, keys: seq<string>, k: nat, j: nat): (ps: seq<Placed>)
    requires k < |keys| && j <= |input.incoming|
    ensures |ps| == input.Matches(keys[k], j)
    ensures forall p :: p in ps ==> p.key == k && p.source.Incoming? && p.source.j < j
  {
    if j == 0 then []
    else
      var here := if input.Good(keys[k], input.incoming[j - 1]) then [Placed(k, Incoming(j - 1))] else [];
      PlacedIncoming(input, keys, k, j - 1) + here
  }

  /** All placements of key k: its incoming signatures, or else the device's. */
  function PlacedFor(input: Input, keys: seq<string>, k: nat): (ps: seq<Placed>)
    requires k < |keys|
    ensures forall p :: p in ps ==> p.key == k && (p.source.Incoming? ==> p.source.j < |input.incoming|)
  {
    var ps := PlacedIncoming(input, keys, k, |input.incoming|);
    if |ps| > 0 then ps
    else if input.DeviceGood(keys[k]) then [Placed(k, Device)]
    else []
  }

  function PlacedBelow(input: Input, keys: seq<string>, k: nat): (ps: seq<Placed>)
    requires k <= |keys|
    ensures forall p :: p in ps ==> p.key < k && (p.source.Incoming? ==> p.source.j < |input.incoming|)
  {
    if k == 0 then [] else PlacedBelow(input, keys, k - 1) + PlacedFor(input, keys, k - 1)
  }

  function Texts(input: Input, ps: seq<Placed>): (ts: seq<string>)
    requires forall p :: p in ps ==> p.source.Incoming? ==> p.source.j < |input.incoming|
    ensures |ts| == |ps|
  {
    seq(|ps|, i requires 0 <= i < |ps| => Text(input, ps[i]))
  }

  /** The merged list. */
  function Merged(input: Input, keys: seq<string>): seq<string> {
    Texts(input, PlacedBelow(input, keys, |keys|))
  }

  /** Some signature that has to be looked at does not decode. */
  ghost predicate Undecodable(input: Input, keys: seq<string>) {
    || (|keys| > 0 && exists j :: 0 <= j < |input.incoming| && input.decode(input.incoming[j]).None?)
    || (ReadsDevice(input, keys) && input.device.Some? && input.decode(input.device.value).None?)
  }

  ghost predicate AllDecode(input: Input) {
    forall j :: 0 <= j < |input.incoming| ==> input.decode(input.incoming[j]).Some?
  }

  /** The device's signature is looked at: some key is left without an incoming one. */
  ghost predicate ReadsDevice(input: Input, keys: seq<string>) {
    AllDecode(input) && exists k :: 0 <= k < |keys| && !input.Covered(keys[k])
  }

  /** The loop over the incoming signatures for one key. */
  method AddIncoming(input: Input, keys: seq<string>, k: nat, before: seq<string>)
    returns (r: Option<seq<string>>, isFind: bool)
    requires k < |keys|
    ensures r.Some? <==> AllDecode(input)
    ensures r.Some? ==> r.value == before + Texts(input, PlacedIncoming(input, keys, k, |input.incoming|))
    ensures r.Some? ==> (isFind <==> input.Covered(keys[k]))
  {
    hide Texts, PlacedIncoming;
    var vSignature := before;
    isFind := false;
    NoTexts(input, keys, k);
    for i := 0 to |input.incoming|
      invariant vSignature == before + Texts(input, PlacedIncoming(input, keys, k, i))
      invariant isFind <==> input.Matches(keys[k], i) > 0
      invariant forall j :: 0 <= j < i ==> input.decode(input.incoming[j]).Some?
    {
      var signature := input.decode(input.incoming[i]);
      if signature == None {
        return None, false;
      }
      IncomingTextStep(input, keys, k, i);
      if input.verify(keys[k], signature.value) {
        vSignature := vSignature + [input.incoming[i]];
        isFind := true;
      }
    }
    return Some(vSignature), isFind;
  }

  lemma NoTexts(input: Input, keys: seq<string>, k: nat)
    requires k < |keys|
    ensures Texts(input, PlacedIncoming(input, keys, k, 0)) == []
  {
  }

  lemma IncomingTextStep(input: Input, keys: seq<string>, k: nat, i: nat)
    requires k < |keys| && i < |input.incoming|
    ensures Texts(input, PlacedIncoming(input, keys, k, i + 1))
         == Texts(input, PlacedIncoming(input, keys, k, i))
          + (if input.Good(keys[k], input.incoming[i]) then [input.incoming[i]] else [])
  {
    TextsAppend(input, PlacedIncoming(input, keys, k, i),
                if input.Good(keys[k], input.incoming[i]) then [Placed(k, Incoming(i))] else []);
  }

  /** One key: its incoming signatures, or else the device's if it verifies. */
  method AddForKey(input: Input, keys: seq<string>, k: nat, before: seq<string>) returns (r: Option<seq<string>>)
    requires k < |keys|
    requires AllDecode(input) && !input.Covered(keys[k]) ==> input.device.Some?
    ensures r.Some? <==> AllDecode(input) && (input.Covered(keys[k]) || input.decode(input.device.value).Some?)
    ensures r.Some? ==> r.value == before + Texts(input, PlacedFor(input, keys, k))
  {
    var isFind;
    r, isFind := AddIncoming(input, keys, k, before);
    if r == None {
      return;
    }
    if !isFind {
      var signature := input.decode(input.device.value);
      if signature == None {
        return None;
      }
      if input.verify(keys[k], signature.value) {
        r := Some(r.value + [input.device.value]);
      }
    }
  }

  /** The loop over the keys; nothing is returned when a signature that is looked at does not decode. */
  method Merge(input: Input, keys: seq<string>) returns (r: Option<seq<string>>)
    requires ReadsDevice(input, keys) ==> input.device.Some?
    ensures r.None? <==> Undecodable(input, keys)
    ensures r.Some? ==> r.value == Merged(input, keys)
  {
    hide Texts, PlacedBelow, PlacedFor;
    var vSignature: seq<string> := [];
    BelowStart(input, keys);
    for orderIndex := 0 to |keys|
      invariant vSignature == Texts(input, PlacedBelow(input, keys, orderIndex))
      invariant orderIndex > 0 ==> AllDecode(input)
      invariant forall k :: 0 <= k < orderIndex && !input.Covered(keys[k]) ==> input.decode(input.device.value).Some?
    {
      r := AddForKey(input, keys, orderIndex, vSignature);
      if r == None {
        return;
      }
      BelowStep(input, keys, orderIndex);
      vSignature := r.value;
    }
    return Some(vSignature);
  }

  lemma BelowStart(input: Input, keys: seq<string>)
    ensures Texts(input, PlacedBelow(input, keys, 0)) == []
  {
  }

  lemma BelowStep(input: Input, keys: seq<string>, k: nat)
    requires k < |keys|
    ensures Texts(input, PlacedBelow(input, keys, k + 1))
         == Texts(input, PlacedBelow(input, keys, k)) + Texts(input, PlacedFor(input, keys, k))
  {
    TextsAppend(input, PlacedBelow(input, keys, k), PlacedFor(input, keys, k));
  }

  lemma TextsAppend(input: Input, ps: seq<Placed>, qs: seq<Placed>)
    requires forall p :: p in ps || p in qs ==> p.source.Incoming? ==> p.source.j < |input.incoming|
    ensures forall p :: p in ps + qs ==> p.source.Incoming? ==> p.source.j < |input.incoming|
    ensures Texts(input, ps + qs) == Texts(input, ps) + Texts(input, qs)
  {
  }

  // ---- what the result holds

  lemma {:induction false} CoveredMeans(input: Input, key: string, j: nat)
    requires j <= |input.incoming|
    ensures input.Matches(key, j) > 0 <==> exists i :: 0 <= i < j && input.Good(key, input.incoming[i])
  {
    if j > 0 {
      CoveredMeans(input, key, j - 1);
      assert input.Matches(key, j) > 0 <==> input.Matches(key, j - 1) > 0 || input.Good(key, input.incoming[j - 1]);
    }
  }

  lemma {:induction false} InPlacedIncoming(input: Input, keys: seq<string>, k: nat, j: nat, t: string)
    requires k < |keys| && j <= |input.incoming|
    ensures t in Texts(input, PlacedIncoming(input, keys, k, j))
       <==> exists i :: 0 <= i < j && input.incoming[i] == t && input.Good(keys[k], t)
  {
    hide Texts, PlacedIncoming;
    if j == 0 {
      NoTexts(input, keys, k);
    } else {
      InPlacedIncoming(input, keys, k, j - 1, t);
      IncomingTextStep(input, keys, k, j - 1);
    }
  }

  lemma InPlacedFor(input: Input, keys: seq<string>, k: nat, t: string)
    requires k < |keys|
    ensures t in Texts(input, PlacedFor(input, keys, k))
       <==> input.Good(keys[k], t) && (t in input.incoming || (input.device == Some(t) && !input.Covered(keys[k])))
  {
    hide PlacedIncoming, Texts;
    InPlacedIncoming(input, keys, k, |input.incoming|, t);
    CoveredMeans(input, keys[k], |input.incoming|);
    if !input.Covered(keys[k]) {
      DeviceText(input, k);
      assert t in input.incoming ==> !input.Good(keys[k], t);
    }
  }

  lemma DeviceText(input: Input, k: nat)
    ensures Texts(input, []) == []
    ensures input.device.Some? ==> Texts(input, [Placed(k, Device)]) == [input.device.value]
  {
  }

  /** A text is merged exactly when it is good for a key and came in, or is the device's and the key is not covered. */
  lemma {:induction false} InMerged(input: Input, keys: seq<string>, n: nat, t: string)
    requires n <= |keys|
    ensures t in Texts(input, PlacedBelow(input, keys, n))
       <==> exists k :: 0 <= k < n && input.Good(keys[k], t)
                        && (t in input.incoming || (input.device == Some(t) && !input.Covered(keys[k])))
  {
    hide Texts, PlacedBelow, PlacedFor;
    if n == 0 {
      BelowStart(input, keys);
    } else {
      InMerged(input, keys, n - 1, t);
      BelowStep(input, keys, n - 1);
      InPlacedFor(input, keys, n - 1, t);
    }
  }

  lemma MergedHolds(input: Input, keys: seq<string>, t: string)
    ensures t in Merged(input, keys)
       <==> exists k :: k in keys && input.Good(k, t)
                        && (|| t in input.incoming
                            || (input.device == Some(t) && forall s :: s in input.incoming ==> !input.Good(k, s)))
  {
    hide Texts, PlacedBelow;
    InMerged(input, keys, |keys|, t);
    forall k ensures input.Covered(k) <==> exists s :: s in input.incoming && input.Good(k, s) {
      CoveredMeans(input, k, |input.incoming|);
    }
  }

  /** Why a merge fails: there is a key, and a signature that has to be looked at does not decode. */
  lemma UndecodableMeans(input: Input, keys: seq<string>)
    ensures !Undecodable(input, keys)
       <==> || keys == []
            || (&& (forall s :: s in input.incoming ==> input.decode(s).Some?)
                && (|| input.device.None? || input.decode(input.device.value).Some?
                    || forall k :: k in keys ==> exists s :: s in input.incoming && input.Good(k, s)))
  {
    forall k ensures input.Covered(k) <==> exists s :: s in input.incoming && input.Good(k, s) {
      CoveredMeans(input, k, |input.incoming|);
    }
    assert AllDecode(input) <==> forall s :: s in input.incoming ==> input.decode(s).Some?;
    assert (exists k :: 0 <= k < |keys| && !input.Covered(keys[k])) <==> exists k :: k in keys && !input.Covered(k);
  }

  ghost predicate InKeyOrder(ps: seq<Placed>) {
    forall p, q :: 0 <= p < q < |ps| ==> ps[p].key <= ps[q].key
  }

  lemma AppendInOrder(before: seq<Placed>, here: seq<Placed>, k: nat)
    requires InKeyOrder(before)
    requires forall p :: p in before ==> p.key < k
    requires forall p :: p in here ==> p.key == k
    ensures InKeyOrder(before + here)
  {
    var all := before + here;
    forall p, q | 0 <= p < q < |all| ensures all[p].key <= all[q].key {
      assert all[p] in all && all[q] in all;
      assert p >= |before| ==> all[p] in here && all[q] in here;
    }
  }

  lemma {:induction false} PlacedInOrder(input: Input, keys: seq<string>, n: nat)
    requires n <= |keys|
    ensures InKeyOrder(PlacedBelow(input, keys, n))
  {
    hide PlacedFor;
    if n > 0 {
      PlacedInOrder(input, keys, n - 1);
      AppendInOrder(PlacedBelow(input, keys, n - 1), PlacedFor(input, keys, n - 1), n - 1);
    }
  }

  /** The keys the signatures were verified against, one by one, come in the order of the keys. */
  lemma MergedInKeyOrder(input: Input, keys: seq<string>) returns (at: seq<nat>)
    ensures |at| == |Merged(input, keys)|
    ensures forall p, q :: 0 <= p < q < |at| ==> at[p] <= at[q]
    ensures forall p :: 0 <= p < |at| ==> at[p] < |keys| && input.Good(keys[at[p]], Merged(input, keys)[p])
  {
    hide PlacedBelow;
    var ps := PlacedBelow(input, keys, |keys|);
    PlacedInOrder(input, keys, |keys|);
    at := seq(|ps|, p requires 0 <= p < |ps| => ps[p].key);
    forall p | 0 <= p < |at| ensures at[p] < |keys| && input.Good(keys[at[p]], Merged(input, keys)[p]) {
      assert ps[p] in ps;
      PlacedAreGood(input, keys, |keys|, ps[p]);
    }
  }

  // ---- order of the result

  ghost predicate StrictlyIncreasing(ps: seq<Placed>) {
    forall i, j :: 0 <= i < j < |ps| ==> ps[i].key < ps[j].key
  }

  ghost predicate OneIncomingPerKey(input: Input, keys: seq<string>) {
    forall k :: 0 <= k < |keys| ==> input.Matches(keys[k], |input.incoming|) <= 1
  }

  lemma IncreasingAppend(before: seq<Placed>, here: seq<Placed>, k: nat)
    requires forall p :: p in before ==> p.key < k
    requires forall p :: p in here ==> p.key == k
    ensures StrictlyIncreasing(before + here) <==> StrictlyIncreasing(before) && |here| <= 1
  {
    var all := before + here;
    assert forall i :: 0 <= i < |before| ==> all[i] == before[i] && before[i] in before;
    assert forall i :: 0 <= i < |here| ==> all[|before| + i] == here[i] && here[i] in here;
    assert |here| > 1 ==> all[|before|].key == all[|before| + 1].key;
    assert StrictlyIncreasing(all) ==> forall i, j :: 0 <= i < j < |before| ==> all[i].key < all[j].key;
  }

  /** The matched keys of the result strictly increase exactly when no key has two good incoming signatures. */
  lemma {:induction false} MergedIncreases(input: Input, keys: seq<string>, n: nat)
    requires n <= |keys|
    ensures StrictlyIncreasing(PlacedBelow(input, keys, n))
       <==> forall k :: 0 <= k < n ==> input.Matches(keys[k], |input.incoming|) <= 1
  {
    hide PlacedIncoming, StrictlyIncreasing;
    if n == 0 {
      NothingIncreases();
    } else {
      MergedIncreases(input, keys, n - 1);
      IncreasingAppend(PlacedBelow(input, keys, n - 1), PlacedFor(input, keys, n - 1), n - 1);
    }
  }

  lemma NothingIncreases()
    ensures StrictlyIncreasing([])
  {
  }

  // ---- the multisignature check

  /** The in-order walk of an m-of-n check: every signature must find its key, keys only moving forward. */
  predicate Walk(input: Input, sigs: seq<string>, keys: seq<string>)
    decreases |keys|
  {
    if |sigs| == 0 then true
    else if |sigs| > |keys| then false
    else if input.Good(keys[0], sigs[0]) then Walk(input, sigs[1..], keys[1..])
    else Walk(input, sigs, keys[1..])
  }

  /** Signatures with keys at increasing positions pass the walk, which takes the first key that fits. */
  lemma {:induction false} IncreasingPassesWalk(input: Input, sigs: seq<string>, keys: seq<string>, at: seq<nat>)
    requires |at| == |sigs|
    requires forall i, j :: 0 <= i < j < |at| ==> at[i] < at[j]
    requires forall i :: 0 <= i < |at| ==> at[i] < |keys| && input.Good(keys[at[i]], sigs[i])
    ensures Walk(input, sigs, keys)
    decreases |keys|
  {
    if |sigs| > 0 {
      IncreasingIsLong(at, |keys|);
      if input.Good(keys[0], sigs[0]) {
        var rest := seq(|at| - 1, i requires 0 <= i < |at| - 1 => ShiftDown(at[0], at[i + 1]));
        IncreasingPassesWalk(input, sigs[1..], keys[1..], rest);
      } else {
        var rest := seq(|at|, i requires 0 <= i < |at| => ShiftDown(0, at[i]));
        assert at[0] != 0;
        forall i | 0 <= i < |at| ensures at[i] > 0 {
          assert i > 0 ==> at[0] < at[i];
        }
        IncreasingPassesWalk(input, sigs, keys[1..], rest);
      }
    }
  }

  function ShiftDown(floor: nat, x: nat): nat {
    if x > floor then x - 1 else 0
  }

  lemma {:induction false} IncreasingIsLong(at: seq<nat>, n: nat)
    requires forall i, j :: 0 <= i < j < |at| ==> at[i] < at[j]
    requires forall i :: 0 <= i < |at| ==> at[i] < n
    ensures |at| <= n
    decreases |at|
  {
    if |at| > 0 {
      var m := |at| - 1;
      IncreasingIsLong(at[..m], at[m]);
    }
  }

  lemma {:induction false} PlacedAreGood(input: Input, keys: seq<string>, n: nat, p: Placed)
    requires n <= |keys| && p in PlacedBelow(input, keys, n)
    ensures p.key < |keys| && input.Good(keys[p.key], Text(input, p))
  {
    hide PlacedIncoming, Texts;
    if p in PlacedBelow(input, keys, n - 1) {
      PlacedAreGood(input, keys, n - 1, p);
    } else {
      assert p in PlacedFor(input, keys, n - 1);
      PlacedForGood(input, keys, n - 1, p);
    }
  }

  lemma PlacedForGood(input: Input, keys: seq<string>, k: nat, p: Placed)
    requires k < |keys| && p in PlacedFor(input, keys, k)
    ensures input.Good(keys[k], Text(input, p))
  {
    hide PlacedIncoming;
    if p in PlacedIncoming(input, keys, k, |input.incoming|) {
      PlacedIncomingGood(input, keys, k, |input.incoming|, p);
    }
  }

  lemma {:induction false} PlacedIncomingGood(input: Input, keys: seq<string>, k: nat, j: nat, p: Placed)
    requires k < |keys| && j <= |input.incoming| && p in PlacedIncoming(input, keys, k, j)
    ensures input.Good(keys[k], input.incoming[p.source.j])
  {
    if p in PlacedIncoming(input, keys, k, j - 1) {
      PlacedIncomingGood(input, keys, k, j - 1, p);
    }
  }

  /** The positions at which a walk that succeeds finds its keys. */
  lemma {:induction false} WalkFindsPositions(input: Input, sigs: seq<string>, keys: seq<string>) returns (at: seq<nat>)
    requires Walk(input, sigs, keys)
    ensures |at| == |sigs|
    ensures forall i, j :: 0 <= i < j < |at| ==> at[i] < at[j]
    ensures forall i :: 0 <= i < |at| ==> at[i] < |keys| && input.Good(keys[at[i]], sigs[i])
    decreases |keys|
  {
    at := [];
    if |sigs| > 0 {
      var here := input.Good(keys[0], sigs[0]);
      var rest := WalkFindsPositions(input, if here then sigs[1..] else sigs, keys[1..]);
      var shifted := seq(|rest|, i requires 0 <= i < |rest| => rest[i] + 1);
      at := if here then [0] + shifted else shifted;
    }
  }

  /** How many of the first n keys have a signature in the result. */
  function KeysServed(input: Input, keys: seq<string>, n: nat): nat
    requires n <= |keys|
  {
    if n == 0 then 0 else KeysServed(input, keys, n - 1) + (if |PlacedFor(input, keys, n - 1)| > 0 then 1 else 0)
  }

  lemma {:induction false} ServedPositions(input: Input, keys: seq<string>, at: seq<nat>, n: nat)
    requires n <= |keys|
    requires forall i, j :: 0 <= i < j < |at| ==> at[i] < at[j]
    requires forall i :: 0 <= i < |at| ==> at[i] < n && |PlacedFor(input, keys, at[i])| > 0
    ensures |at| <= KeysServed(input, keys, n)
  {
    hide PlacedFor;
    assert |at| > 0 ==> at[0] < n;
    if n > 0 {
      var m := |at| - 1;
      assert forall i :: 0 <= i < m ==> at[i] < at[m];
      if m >= 0 && at[m] == n - 1 {
        ServedPositions(input, keys, at[..m], n - 1);
      } else {
        ServedPositions(input, keys, at, n - 1);
      }
    }
  }

  /** As many signatures as keys served means one for each. */
  lemma {:induction false} OneForEachServed(input: Input, keys: seq<string>, n: nat)
    requires n <= |keys|
    ensures KeysServed(input, keys, n) <= |PlacedBelow(input, keys, n)|
    ensures KeysServed(input, keys, n) == |PlacedBelow(input, keys, n)| ==>
              forall k :: 0 <= k < n ==> input.Matches(keys[k], |input.incoming|) <= 1
  {
    hide PlacedIncoming;
    if n > 0 {
      OneForEachServed(input, keys, n - 1);
    }
  }

  /** A key that some signature of the result is good for has a signature in the result. */
  lemma GoodKeyIsServed(input: Input, keys: seq<string>, p: Placed, k: nat)
    requires p in PlacedBelow(input, keys, |keys|) && k < |keys| && input.Good(keys[k], Text(input, p))
    ensures |PlacedFor(input, keys, k)| > 0
  {
    hide PlacedIncoming;
    match p.source
    case Incoming(j) => MatchCounts(input, keys[k], |input.incoming|, j);
    case Device => DevicePlaced(input, keys, |keys|, p);
  }

  lemma {:induction false} DevicePlaced(input: Input, keys: seq<string>, n: nat, p: Placed)
    requires n <= |keys| && p in PlacedBelow(input, keys, n) && p.source == Device
    ensures input.device.Some?
  {
    hide PlacedIncoming;
    if p in PlacedBelow(input, keys, n - 1) {
      DevicePlaced(input, keys, n - 1, p);
    }
  }

  /** The in-order check accepts the merged list exactly when no key has two good incoming signatures. */
  lemma MergedPassesWalk(input: Input, keys: seq<string>)
    ensures Walk(input, Merged(input, keys), keys) <==> OneIncomingPerKey(input, keys)
  {
    hide PlacedFor, PlacedBelow;
    var ps := PlacedBelow(input, keys, |keys|);
    if OneIncomingPerKey(input, keys) {
      MergedIncreases(input, keys, |keys|);
      var at := seq(|ps|, i requires 0 <= i < |ps| => ps[i].key);
      forall i | 0 <= i < |at| ensures at[i] < |keys| && input.Good(keys[at[i]], Merged(input, keys)[i]) {
        assert ps[i] in ps;
        PlacedAreGood(input, keys, |keys|, ps[i]);
      }
      IncreasingPassesWalk(input, Merged(input, keys), keys, at);
    }
    if Walk(input, Merged(input, keys), keys) {
      var at := WalkFindsPositions(input, Merged(input, keys), keys);
      forall i | 0 <= i < |at| ensures |PlacedFor(input, keys, at[i])| > 0 {
        assert ps[i] in ps;
        GoodKeyIsServed(input, keys, ps[i], at[i]);
      }
      ServedPositions(input, keys, at, |keys|);
      OneForEachServed(input, keys, |keys|);
    }
  }

  /**
   A transaction that lists one cosigner's signature twice, completed by the device: the
   merge succeeds and keeps both, and the check fails.
   */
  lemma RepeatedSignatureFails()
    ensures var input := Input(text => Some(text), (key, text) => key == text, ["a", "a"], Some("b"));
            var keys := ["a", "b", "c"];
            && !Undecodable(input, keys)
            && Merged(input, keys) == ["a", "a", "b"]
            && !Walk(input, Merged(input, keys), keys)
  {
    var input := Input(text => Some(text), (key: string, text: string) => key == text, ["a", "a"], Some("b"));
    var keys := ["a", "b", "c"];
    assert input.Matches("a", 1) == 1 && input.Matches("a", 2) == 2;
    assert input.Matches("b", 1) == 0 && input.Matches("b", 2) == 0;
    assert input.Matches("c", 1) == 0 && input.Matches("c", 2) == 0;
    assert PlacedFor(input, keys, 0) == PlacedIncoming(input, keys, 0, 1) + [Placed(0, Incoming(1))];
    assert PlacedFor(input, keys, 1) == [Placed(1, Device)];
    assert PlacedFor(input, keys, 2) == [];
    assert PlacedBelow(input, keys, 1) == PlacedFor(input, keys, 0);
    assert PlacedBelow(input, keys, 2) == PlacedBelow(input, keys, 1) + [Placed(1, Device)];
    assert PlacedBelow(input, keys, 3) == PlacedBelow(input, keys, 2);
    assert !OneIncomingPerKey(input, keys);
    MergedPassesWalk(input, keys);
  }

  // ---- nothing lost, nothing twice

  function Count(ps: seq<Placed>, source: Source): nat {
    if |ps| == 0 then 0 else Count(ps[..|ps| - 1], source) + (if ps[|ps| - 1].source == source then 1 else 0)
  }

  /** The number of the first n keys for which the text is good. */
  function GoodKeys(input: Input, keys: seq<string>, n: nat, text: string): nat
    requires n <= |keys|
  {
    if n == 0 then 0 else GoodKeys(input, keys, n - 1, text) + (if input.Good(keys[n - 1], text) then 1 else 0)
  }

  /** The number of the first n keys the device's signature is good for and no incoming one covers. */
  function UncoveredKeys(input: Input, keys: seq<string>, n: nat): nat
    requires n <= |keys|
  {
    if n == 0 then 0
    else
      var here := if input.DeviceGood(keys[n - 1]) && !input.Covered(keys[n - 1]) then 1 else 0;
      UncoveredKeys(input, keys, n - 1) + here
  }

  lemma {:induction false} CountAppend(ps: seq<Placed>, qs: seq<Placed>, source: Source)
    ensures Count(ps + qs, source) == Count(ps, source) + Count(qs, source)
  {
    if |qs| == 0 {
      assert ps + qs == ps;
    } else {
      var m := |qs| - 1;
      assert (ps + qs)[..|ps| + m] == ps + qs[..m];
      CountAppend(ps, qs[..m], source);
    }
  }

  lemma {:induction false} CountIncoming(input: Input, keys: seq<string>, k: nat, j: nat, i: nat)
    requires k < |keys| && j <= |input.incoming| && i < |input.incoming|
    ensures Count(PlacedIncoming(input, keys, k, j), Incoming(i))
         == if i < j && input.Good(keys[k], input.incoming[i]) then 1 else 0
    ensures Count(PlacedIncoming(input, keys, k, j), Device) == 0
  {
    hide Count;
    OneSource(Placed(k, Device), Incoming(i));
    OneSource(Placed(k, Device), Device);
    if j > 0 {
      var before, last := PlacedIncoming(input, keys, k, j - 1), Placed(k, Incoming(j - 1));
      CountIncoming(input, keys, k, j - 1, i);
      OneSource(last, Incoming(i));
      OneSource(last, Device);
      if input.Good(keys[k], input.incoming[j - 1]) {
        CountAppend(before, [last], Incoming(i));
        CountAppend(before, [last], Device);
      } else {
        assert before + [] == before;
      }
    }
  }

  lemma OneSource(p: Placed, source: Source)
    ensures Count([], source) == 0
    ensures Count([p], source) == if p.source == source then 1 else 0
  {
    assert [p][..0] == [];
  }

  /** An incoming signature appears once for every key it is good for: once, when that is one key. */
  lemma {:induction false} IncomingAppears(input: Input, keys: seq<string>, n: nat, i: nat)
    requires n <= |keys| && i < |input.incoming|
    ensures Count(PlacedBelow(input, keys, n), Incoming(i)) == GoodKeys(input, keys, n, input.incoming[i])
  {
    hide PlacedFor, Count;
    if n == 0 {
      OneSource(Placed(0, Device), Incoming(i));
    } else {
      IncomingAppears(input, keys, n - 1, i);
      CountAppend(PlacedBelow(input, keys, n - 1), PlacedFor(input, keys, n - 1), Incoming(i));
      IncomingForKey(input, keys, n - 1, i);
    }
  }

  lemma IncomingForKey(input: Input, keys: seq<string>, k: nat, i: nat)
    requires k < |keys| && i < |input.incoming|
    ensures Count(PlacedFor(input, keys, k), Incoming(i)) == if input.Good(keys[k], input.incoming[i]) then 1 else 0
  {
    hide PlacedIncoming;
    CountIncoming(input, keys, k, |input.incoming|, i);
    OneSource(Placed(k, Device), Incoming(i));
    if input.Good(keys[k], input.incoming[i]) {
      MatchCounts(input, keys[k], |input.incoming|, i);
    }
  }

  lemma {:induction false} MatchCounts(input: Input, key: string, j: nat, i: nat)
    requires i < j <= |input.incoming| && input.Good(key, input.incoming[i])
    ensures input.Matches(key, j) > 0
  {
    if i < j - 1 {
      MatchCounts(input, key, j - 1, i);
    }
  }

  /** The device's signature is added exactly for the keys it is good for and no incoming signature covers. */
  lemma {:induction false} DeviceAppears(input: Input, keys: seq<string>, n: nat)
    requires n <= |keys|
    ensures Count(PlacedBelow(input, keys, n), Device) == UncoveredKeys(input, keys, n)
  {
    hide PlacedFor, Count;
    if n == 0 {
      OneSource(Placed(0, Device), Device);
    } else {
      DeviceAppears(input, keys, n - 1);
      CountAppend(PlacedBelow(input, keys, n - 1), PlacedFor(input, keys, n - 1), Device);
      DeviceForKey(input, keys, n - 1);
    }
  }

  lemma DeviceForKey(input: Input, keys: seq<string>, k: nat)
    requires k < |keys|
    ensures Count(PlacedFor(input, keys, k), Device)
         == if input.DeviceGood(keys[k]) && !input.Covered(keys[k]) then 1 else 0
  {
    hide PlacedIncoming, Count;
    NoDeviceAmongIncoming(input, keys, k, |input.incoming|);
    OneSource(Placed(k, Device), Device);
  }

  lemma {:induction false} NoDeviceAmongIncoming(input: Input, keys: seq<string>, k: nat, j: nat)
    requires k < |keys| && j <= |input.incoming|
    ensures Count(PlacedIncoming(input, keys, k, j), Device) == 0
  {
    if j > 0 {
      CountIncoming(input, keys, k, j, 0);
    }
  }
}
