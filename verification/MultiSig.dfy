/**
 The context of one cosigner of an m-of-n account: which keys take part, the order of
 the keys derived from them, and the order of their signatures.

 Reading an extended key, deriving from it, serializing an input and checking a
 signature are left open, as fields and parameters.
 */
module MultiSig {
  import opened Exceptions
  import opened Numerals
  import opened HDPath
  import opened KeyOrder
  import opened SignatureMerge

  const COSIGNER_MAX_COUNT := 15

  /** Reads the key of an extended key; none if it is unreadable. */
  type KeyReader = string -> Option<string>

  /** The key that an extended key derives for a path; none if it cannot. */
  type Derivation = (string, string) -> Option<string>

  datatype RV = Okay | ArgumentsBad | GeneralError | TokenError

  /** Change and address index of an input or address. */
  datatype Bip44Path = Bip44Path(change: nat, addressIndex: nat)

  /** std::map::insert: an entry that is there stays. */
  function InsertNew<V>(m: map<string, V>, k: string, v: V): map<string, V> {
    if k in m then m else m[k := v]
  }

  /** The key list and the key-to-xpub map after registering the xpubs in turn; an unreadable one is passed over. */
  function Registered(keyOf: KeyReader, xpubs: seq<string>): (seq<string>, map<string, string>) {
    if |xpubs| == 0 then ([], map[])
    else
      var last := xpubs[|xpubs| - 1];
      var (keys, xpubOf) := Registered(keyOf, xpubs[..|xpubs| - 1]);
      match keyOf(last)
      case None => (keys, xpubOf)
      case Some(k) => (keys + [k], InsertNew(xpubOf, k, last))
  }

  /** How many of the configured xpubs are read before the first unreadable one. */
  function ReadableCount(keyOf: KeyReader, xpubs: seq<string>): (n: nat)
    ensures n <= |xpubs|
    ensures forall i :: 0 <= i < n ==> keyOf(xpubs[i]).Some?
    ensures n < |xpubs| ==> keyOf(xpubs[n]).None?
  {
    if |xpubs| == 0 || keyOf(xpubs[0]).None? then 0 else 1 + ReadableCount(keyOf, xpubs[1..])
  }

  /** What a cosigner knows once the account is complete. */
  datatype Account = Account(keys: seq<string>, xpubOf: map<string, string>, n: nat, derive: Derivation) {

    /** The xpub of cosigner i, "" if there is none. */
    function XpubAt(i: nat): string {
      if |keys| <= i then "" else XpubOf(keys[i])
    }

    function XpubOf(key: string): string {
      if key in xpubOf then xpubOf[key] else ""
    }

    /** Cosigner i's key for a path; none if there is no xpub or it cannot be derived. */
    function DerivedKey(mainPath: string, path: Bip44Path, i: nat): Option<string> {
      if XpubAt(i) == "" then None else derive(XpubAt(i), CosignerPath(mainPath, path, i))
    }

    /** The derived keys of the first k cosigners, in cosigner order. */
    function DerivedKeys(mainPath: string, path: Bip44Path, k: nat): (r: Option<seq<string>>)
      ensures r.Some? ==> |r.value| == k
    {
      if k == 0 then Some([])
      else match DerivedKeys(mainPath, path, k - 1)
        case None => None
        case Some(ks) =>
          match DerivedKey(mainPath, path, k - 1)
          case None => None
          case Some(key) => Some(ks + [key])
    }

    /** The first of k cosigners with this xpub, or k. */
    function FirstWith(xpub: string, k: nat): (i: nat)
      ensures i <= k
      ensures i < k ==> XpubAt(i) == xpub
      ensures forall j :: 0 <= j < i ==> XpubAt(j) != xpub
    {
      if k == 0 then 0
      else
        var i := FirstWith(xpub, k - 1);
        if i < k - 1 then i else if XpubAt(k - 1) == xpub then k - 1 else k
    }

    /** mapDeriveXpub: the derived key of the first cosigner with an xpub. */
    ghost predicate MapsFirst(m: map<string, string>, derived: seq<string>) {
      && (forall x :: x in m <==> FirstWith(x, |derived|) < |derived|)
      && (forall x :: x in m ==> m[x] == derived[FirstWith(x, |derived|)])
    }

    lemma MapsFirstStep(m: map<string, string>, derived: seq<string>, key: string)
      requires MapsFirst(m, derived)
      ensures MapsFirst(InsertNew(m, XpubAt(|derived|), key), derived + [key])
    {
      hide XpubAt, FirstWith;
      var k := |derived|;
      var m' := InsertNew(m, XpubAt(k), key);
      forall x ensures x in m' <==> FirstWith(x, k + 1) < k + 1 {
        FirstWithStep(x, k);
      }
      forall x | x in m' ensures m'[x] == (derived + [key])[FirstWith(x, k + 1)] {
        FirstWithStep(x, k);
      }
    }

    lemma FirstWithStep(x: string, k: nat)
      ensures FirstWith(x, k + 1)
           == if FirstWith(x, k) < k then FirstWith(x, k) else if XpubAt(k) == x then k else k + 1
    {
    }

    /** The loop that derives every cosigner's key. */
    method Derive(mainPath: string, path: Bip44Path)
      returns (rv: RV, vPublickey: seq<string>, mapDeriveXpub: map<string, string>)
      ensures rv == if n == 0 then GeneralError else if DerivedKeys(mainPath, path, n).None? then ArgumentsBad else Okay
      ensures rv == Okay ==> DerivedKeys(mainPath, path, n) == Some(vPublickey)
      ensures rv == Okay ==> MapsFirst(mapDeriveXpub, vPublickey)
    {
      hide CosignerPath, MapsFirst;
      rv, vPublickey, mapDeriveXpub := GeneralError, [], map[];
      MapsFirstStart();
      for i := 0 to n
        invariant DerivedKeys(mainPath, path, i) == Some(vPublickey)
        invariant rv == if i == 0 then GeneralError else Okay
        invariant MapsFirst(mapDeriveXpub, vPublickey)
      {
        var mainXpub := XpubAt(i);
        if mainXpub == "" {
          PrefixFails(this, mainPath, path, i, n);
          return ArgumentsBad, [], map[];
        }
        var key := derive(mainXpub, CosignerPath(mainPath, path, i));
        if key == None {
          PrefixFails(this, mainPath, path, i, n);
          return ArgumentsBad, [], map[];
        }
        rv := Okay;
        MapsFirstStep(mapDeriveXpub, vPublickey, key.value);
        vPublickey := vPublickey + [key.value];
        mapDeriveXpub := InsertNew(mapDeriveXpub, mainXpub, key.value);
      }
    }

    lemma MapsFirstStart()
      ensures MapsFirst(map[], [])
    {
    }

    /** The ordered derived keys and the position of one's own among them. */
    function Ordered(mainKey: string, mainPath: string, path: Bip44Path): (r: OrderResult)
      ensures r.Failed? ==> r.rv != Okay
    {
      if n == 0 then Failed(GeneralError)
      else match DerivedKeys(mainPath, path, n)
        case None => Failed(ArgumentsBad)
        case Some(ks) =>
          var i := FirstWith(XpubOf(mainKey), n);
          if i == n then Failed(ArgumentsBad) else OrderedKeys(Sort(ks), Find(Sort(ks), ks[i]))
    }
  }

  datatype OrderResult = OrderedKeys(keys: seq<string>, index: nat) | Failed(rv: RV)

  function CosignerPath(mainPath: string, path: Bip44Path, cosignerIndex: nat): string {
    mainPath + "/" + WriteNumber(cosignerIndex, 10)
    + "/" + WriteNumber(path.change, 10) + "/" + WriteNumber(path.addressIndex, 10)
  }

  /**
   A cosigner's path reads as the main path, its index, change and address index exactly
   when the main path ends in a level.
   */
  lemma CosignerPathReads(mainPath: string, path: Bip44Path, i: nat)
    requires mainPath != "" && Parse(mainPath, 0).Ok?
    requires i < 0x8000_0000 && path.change < 0x8000_0000 && path.addressIndex < 0x8000_0000
    ensures Parse(CosignerPath(mainPath, path, i), 0)
         == Ok(Parse(mainPath, 0).value + [i, path.change, path.addressIndex])
       <==> EndsInLevel(mainPath, 0)
  {
    hide Parse, EndsInLevel;
    var ls := [Level(i, false), Level(path.change, false), Level(path.addressIndex, false)];
    CosignerPathIsExtension(mainPath, path, i);
    ParseExtended(mainPath, 0, ls);
    assert Numbers(ls) == [i, path.change, path.addressIndex];
  }

  lemma CosignerPathIsExtension(mainPath: string, path: Bip44Path, i: nat)
    ensures CosignerPath(mainPath, path, i)
         == Extend(mainPath, [Level(i, false), Level(path.change, false), Level(path.addressIndex, false)])
  {
    hide WriteNumber;
    var ls := [Level(path.change, false), Level(path.addressIndex, false)];
    FullPathIsExtension(mainPath + "/" + WriteNumber(i, 10), path.change, path.addressIndex);
    assert ([Level(i, false)] + ls)[1..] == ls;
    NothingAfter(WriteNumber(i, 10));
    var a, b, c := mainPath + "/", WriteNumber(i, 10), Render(ls);
    assert a + b + "/" + c == a + (b + "/" + c);
  }

  /** What a transaction brings to the ordering of its signatures. */
  datatype Transaction = Transaction(
    inputs: seq<Bip44Path>,
    preimageOf: nat -> Option<string>,
    decode: string -> Option<string>,
    verify: (string, string, string) -> bool,
    incoming: map<string, seq<string>>,
    device: seq<string>)
  {
    /** getVectorFromMap: the incoming signatures of an input, none if it has no entry. */
    function IncomingOf(i: nat): seq<string> {
      var key := WriteNumber(i, 10);
      if key in incoming then incoming[key] else []
    }

    function InputAt(i: nat, preimage: string): Input {
      var mine := if i < |device| then Some(device[i]) else None;
      Input(decode, (key, sig) => verify(key, sig, preimage), IncomingOf(i), mine)
    }

    /** Merging input i looks at the device's signature. */
    ghost predicate ReadsDeviceAt(account: Account, mainKey: string, mainPath: string, i: nat)
      requires i < |inputs|
    {
      && preimageOf(i).Some?
      && match account.Ordered(mainKey, mainPath, inputs[i])
         case Failed(_) => false
         case OrderedKeys(keys, _) => ReadsDevice(InputAt(i, preimageOf(i).value), keys)
    }

    /** The device signed every input whose merge is reached and looks at its signature. */
    ghost predicate DeviceSignedEnough(account: Account, mainKey: string, mainPath: string) {
      forall i :: |device| <= i < |inputs| && ReadsDeviceAt(account, mainKey, mainPath, i) ==>
                    exists j :: 0 <= j < i && OutcomeOf(account, mainKey, mainPath, j) != Okay
    }

    /** How input i ends for the cosigner with this account. */
    ghost function OutcomeOf(account: Account, mainKey: string, mainPath: string, i: nat): RV
      requires i < |inputs|
    {
      if preimageOf(i).None? then TokenError
      else match account.Ordered(mainKey, mainPath, inputs[i])
        case Failed(e) => e
        case OrderedKeys(keys, _) =>
          if Undecodable(InputAt(i, preimageOf(i).value), keys) then ArgumentsBad else Okay
    }

    /** The signatures of input i in key order. */
    function SignaturesOf(account: Account, mainKey: string, mainPath: string, i: nat): seq<string>
      requires i < |inputs|
    {
      match (preimageOf(i), account.Ordered(mainKey, mainPath, inputs[i]))
      case (Some(preimage), OrderedKeys(keys, _)) => Merged(InputAt(i, preimage), keys)
      case _ => []
    }

    /** The entries of the first k inputs, and no others. */
    ghost predicate HoldsSignatures(m: map<string, seq<string>>, account: Account, mainKey: string, mainPath: string,
                                    k: nat)
      requires k <= |inputs|
    {
      && (forall x :: x in m ==> exists i :: 0 <= i < k && x == WriteNumber(i, 10))
      && (forall i :: 0 <= i < k ==>
            WriteNumber(i, 10) in m && m[WriteNumber(i, 10)] == SignaturesOf(account, mainKey, mainPath, i))
    }

    lemma HoldsNothing(account: Account, mainKey: string, mainPath: string)
      ensures HoldsSignatures(map[], account, mainKey, mainPath, 0)
    {
    }

    lemma HoldsSomething(m: map<string, seq<string>>, account: Account, mainKey: string, mainPath: string)
      requires HoldsSignatures(m, account, mainKey, mainPath, |inputs|)
      ensures |m| == 0 <==> |inputs| == 0
    {
      if |inputs| > 0 {
        assert WriteNumber(0, 10) in m;
      } else {
        assert m == map[];
      }
    }

    /**
     What input i's entry holds: every incoming signature of the input that is good for one of
     the ordered keys, and the device's for it where it is good for a key that none of the
     incoming ones is good for.
     */
    lemma EntryExactly(m: map<string, seq<string>>, account: Account, mainKey: string, mainPath: string, i: nat,
                       t: string)
      requires i < |inputs| && HoldsSignatures(m, account, mainKey, mainPath, |inputs|)
      requires OutcomeOf(account, mainKey, mainPath, i) == Okay
      ensures var x := WriteNumber(i, 10);
              var ordered := account.Ordered(mainKey, mainPath, inputs[i]);
              && x in m && preimageOf(i).Some? && ordered.OrderedKeys?
              && (t in m[x] <==>
                  exists k :: k in ordered.keys
                    && decode(t).Some? && verify(k, decode(t).value, preimageOf(i).value)
                    && (|| (x in incoming && t in incoming[x])
                        || (&& i < |device| && t == device[i]
                            && forall s :: x in incoming && s in incoming[x] ==>
                                 !(decode(s).Some? && verify(k, decode(s).value, preimageOf(i).value)))))
    {
      hide WriteNumber, Merged, Account.Ordered, Undecodable;
      var x, preimage := WriteNumber(i, 10), preimageOf(i).value;
      var keys := account.Ordered(mainKey, mainPath, inputs[i]).keys;
      var input := InputAt(i, preimage);
      assert m[x] == Merged(input, keys);
      MergedHolds(input, keys, t);
      assert forall s :: s in input.incoming <==> x in incoming && s in incoming[x];
    }

    /** The signatures of an entry are good for the ordered keys in their order. */
    lemma EntryInKeyOrder(m: map<string, seq<string>>, account: Account, mainKey: string, mainPath: string, i: nat)
      returns (at: seq<nat>)
      requires i < |inputs| && HoldsSignatures(m, account, mainKey, mainPath, |inputs|)
      requires OutcomeOf(account, mainKey, mainPath, i) == Okay
      ensures var x := WriteNumber(i, 10);
              var ordered := account.Ordered(mainKey, mainPath, inputs[i]);
              && x in m && preimageOf(i).Some? && ordered.OrderedKeys? && |at| == |m[x]|
              && (forall p, q :: 0 <= p < q < |at| ==> at[p] <= at[q])
              && (forall p :: 0 <= p < |at| ==>
                    && at[p] < |ordered.keys| && decode(m[x][p]).Some?
                    && verify(ordered.keys[at[p]], decode(m[x][p]).value, preimageOf(i).value))
    {
      hide WriteNumber, Merged, Account.Ordered, Undecodable;
      var keys := account.Ordered(mainKey, mainPath, inputs[i]).keys;
      at := MergedInKeyOrder(InputAt(i, preimageOf(i).value), keys);
    }

    /**
     How an input ends: badly without a preimage or ordered keys, and with a key to serve
     when an incoming signature does not decode, or the device's does not and is needed.
     */
    lemma OutcomeExactly(account: Account, mainKey: string, mainPath: string, i: nat)
      requires i < |inputs|
      ensures var x := WriteNumber(i, 10);
              match (preimageOf(i), account.Ordered(mainKey, mainPath, inputs[i]))
              case (None, _) => OutcomeOf(account, mainKey, mainPath, i) == TokenError
              case (_, Failed(e)) => OutcomeOf(account, mainKey, mainPath, i) == e
              case (Some(preimage), OrderedKeys(keys, _)) =>
                && OutcomeOf(account, mainKey, mainPath, i) in {Okay, ArgumentsBad}
                && (OutcomeOf(account, mainKey, mainPath, i) == Okay <==>
                    || keys == []
                    || (&& (forall s :: x in incoming && s in incoming[x] ==> decode(s).Some?)
                        && (|| i >= |device| || decode(device[i]).Some?
                            || forall k :: k in keys ==>
                                 exists s :: x in incoming && s in incoming[x] && decode(s).Some?
                                             && verify(k, decode(s).value, preimage))))
    {
      hide WriteNumber, Account.Ordered;
      if preimageOf(i).Some? && account.Ordered(mainKey, mainPath, inputs[i]).OrderedKeys? {
        var x := WriteNumber(i, 10);
        var input := InputAt(i, preimageOf(i).value);
        UndecodableMeans(input, account.Ordered(mainKey, mainPath, inputs[i]).keys);
        assert forall s :: s in input.incoming <==> x in incoming && s in incoming[x];
      }
    }

    lemma AnotherInput(m: map<string, seq<string>>, account: Account, mainKey: string, mainPath: string, k: nat)
      requires k < |inputs|
      requires HoldsSignatures(m, account, mainKey, mainPath, k)
      ensures HoldsSignatures(InsertNew(m, WriteNumber(k, 10), SignaturesOf(account, mainKey, mainPath, k)),
                              account, mainKey, mainPath, k + 1)
    {
      hide WriteNumber, SignaturesOf;
      var x := WriteNumber(k, 10);
      ReadWrite(k, 10);
      forall i | 0 <= i < k ensures WriteNumber(i, 10) != x {
        ReadWrite(i, 10);
      }
      var m' := InsertNew(m, x, SignaturesOf(account, mainKey, mainPath, k));
      forall y | y in m' ensures exists i :: 0 <= i < k + 1 && y == WriteNumber(i, 10) {
        if y == x {
          assert 0 <= k < k + 1 && y == WriteNumber(k, 10);
        } else {
          var i :| 0 <= i < k && y == WriteNumber(i, 10);
          assert 0 <= i < k + 1 && y == WriteNumber(i, 10);
        }
      }
    }
  }

  class BTCContextMultiSigExt {
    const m: nat
    const n: nat
    const keyOf: KeyReader
    const derive: Derivation
    var cosignerIndex: int
    var orderedIndex: int
    var mainPubKey: string
    var vCosignerMainPubKey: seq<string>
    var mapCosignerMainKey: map<string, string>
    var isValid: bool

    function ToAccount(): Account
      reads this
    {
      Account(vCosignerMainPubKey, mapCosignerMainKey, n, derive)
    }

    /** Registers the configured cosigners up to the first unreadable xpub. */
    constructor (m: nat, n: nat, xpubs: seq<string>, keyOf: KeyReader, derive: Derivation)
      ensures this.m == m && this.n == n && this.keyOf == keyOf && this.derive == derive
      ensures cosignerIndex == -1 && orderedIndex == -1 && mainPubKey == ""
      ensures var tooMany := COSIGNER_MAX_COUNT <= |xpubs| || COSIGNER_MAX_COUNT < m || COSIGNER_MAX_COUNT < n;
              && (isValid <==> !tooMany && ReadableCount(keyOf, xpubs) == |xpubs|)
              && (vCosignerMainPubKey, mapCosignerMainKey)
              == Registered(keyOf, if tooMany then [] else xpubs[..ReadableCount(keyOf, xpubs)])
    {
      this.m, this.n, this.keyOf, this.derive := m, n, keyOf, derive;
      cosignerIndex, orderedIndex := -1, -1;
      mainPubKey := "";
      vCosignerMainPubKey, mapCosignerMainKey := [], map[];
      isValid := !(COSIGNER_MAX_COUNT <= |xpubs| || COSIGNER_MAX_COUNT < m || COSIGNER_MAX_COUNT < n);
      new;
      if !isValid {
        return;
      }
      for i := 0 to |xpubs|
        invariant isValid && i <= ReadableCount(keyOf, xpubs)
        invariant cosignerIndex == -1 && orderedIndex == -1 && mainPubKey == ""
        invariant (vCosignerMainPubKey, mapCosignerMainKey) == Registered(keyOf, xpubs[..i])
      {
        var key := keyOf(xpubs[i]);
        if key == None {
          isValid := false;
          return;
        }
        assert xpubs[..i + 1][..i] == xpubs[..i];
        vCosignerMainPubKey := vCosignerMainPubKey + [key.value];
        mapCosignerMainKey := InsertNew(mapCosignerMainKey, key.value, xpubs[i]);
      }
      assert xpubs[..|xpubs|] == xpubs;
    }

    /** Registers one's own xpub; an unreadable one changes nothing. */
    method AddMyMainXPub(mainXpub: string)
      modifies this`mainPubKey, this`vCosignerMainPubKey, this`mapCosignerMainKey
      ensures match keyOf(mainXpub)
              case None => unchanged(this)
              case Some(k) =>
                && mainPubKey == k
                && vCosignerMainPubKey == old(vCosignerMainPubKey) + [k]
                && mapCosignerMainKey == InsertNew(old(mapCosignerMainKey), k, mainXpub)
    {
      var key := keyOf(mainXpub);
      if key == None {
        return;
      }
      mainPubKey := key.value;
      vCosignerMainPubKey := vCosignerMainPubKey + [mainPubKey];
      mapCosignerMainKey := InsertNew(mapCosignerMainKey, mainPubKey, mainXpub);
    }

    /** Sorts the keys, drops repetitions and finds one's own; an index that is set stays. */
    method SortKeys()
      modifies this`vCosignerMainPubKey, this`cosignerIndex
      ensures vCosignerMainPubKey == SortedKeys(old(vCosignerMainPubKey))
      ensures cosignerIndex
           == if old(cosignerIndex) == -1 then Find(vCosignerMainPubKey, mainPubKey) else old(cosignerIndex)
    {
      vCosignerMainPubKey := Sort(vCosignerMainPubKey);
      vCosignerMainPubKey := Unique(vCosignerMainPubKey);
      var pos := Find(vCosignerMainPubKey, mainPubKey);
      if cosignerIndex == -1 {
        cosignerIndex := pos;
      }
    }

    /** The preparatory flow: one's own xpub joins the configured ones. */
    method Order(mainXpub: string)
      modifies this`mainPubKey, this`vCosignerMainPubKey, this`mapCosignerMainKey, this`cosignerIndex
      ensures forall xpubs :: (old(vCosignerMainPubKey), old(mapCosignerMainKey)) == Registered(keyOf, xpubs) ==>
                var (keys, xpubOf) := Registered(keyOf, xpubs + [mainXpub]);
                vCosignerMainPubKey == SortedKeys(keys) && mapCosignerMainKey == xpubOf
      ensures mainPubKey == match keyOf(mainXpub) case Some(k) => k case None => old(mainPubKey)
      ensures keyOf(mainXpub).None? ==>
                && vCosignerMainPubKey == SortedKeys(old(vCosignerMainPubKey))
                && mapCosignerMainKey == old(mapCosignerMainKey)
      ensures cosignerIndex
           == if old(cosignerIndex) == -1 then Find(vCosignerMainPubKey, mainPubKey) else old(cosignerIndex)
      ensures keyOf(mainXpub).Some? && old(cosignerIndex) == -1 ==>
                0 <= cosignerIndex < |vCosignerMainPubKey| && vCosignerMainPubKey[cosignerIndex] == mainPubKey
    {
      AddMyMainXPub(mainXpub);
      ghost var keys := vCosignerMainPubKey;
      assert keyOf(mainXpub).Some? ==> mainPubKey in keys;
      SortKeys();
      SortedKeysKeep(keys);
      forall xpubs | (old(vCosignerMainPubKey), old(mapCosignerMainKey)) == Registered(keyOf, xpubs)
        ensures Registered(keyOf, xpubs + [mainXpub]) == (keys, mapCosignerMainKey)
      {
        assert (xpubs + [mainXpub])[..|xpubs|] == xpubs;
      }
    }

    /** The derived public keys in order; remembers which one is one's own. */
    method OrderDHPublicKey(mainPath: string, path: Bip44Path) returns (rv: RV, vOrderedPublickey: seq<string>)
      modifies this`orderedIndex
      ensures match ToAccount().Ordered(mainPubKey, mainPath, path)
              case Failed(e) => rv == e && vOrderedPublickey == [] && orderedIndex == old(orderedIndex)
              case OrderedKeys(keys, index) => rv == Okay && vOrderedPublickey == keys && orderedIndex == index
    {
      hide CosignerPath, Sort;
      vOrderedPublickey := [];
      var vPublickey, mapDeriveXpub;
      rv, vPublickey, mapDeriveXpub := ToAccount().Derive(mainPath, path);
      if rv != Okay {
        return;
      }
      var ordered := Sort(vPublickey);
      var myMainXpub := ToAccount().XpubOf(mainPubKey);
      if myMainXpub !in mapDeriveXpub {
        return ArgumentsBad, [];
      }
      orderedIndex := Find(ordered, mapDeriveXpub[myMainXpub]);
      return Okay, ordered;
    }

    /** One input: its preimage, the ordered keys and the merge. */
    method OrderInput(mainPath: string, tx: Transaction, i: nat) returns (rv: RV, vSignature: seq<string>)
      requires i < |tx.inputs|
      requires |tx.device| <= i ==> !tx.ReadsDeviceAt(ToAccount(), mainPubKey, mainPath, i)
      modifies this`orderedIndex
      ensures rv == tx.OutcomeOf(ToAccount(), mainPubKey, mainPath, i)
      ensures rv == Okay ==> vSignature == tx.SignaturesOf(ToAccount(), mainPubKey, mainPath, i)
    {
      hide CosignerPath, Sort, Merged, Undecodable, ReadsDevice;
      vSignature := [];
      var preimage := tx.preimageOf(i);
      if preimage == None {
        return TokenError, [];
      }
      var vOrderedPublickey;
      rv, vOrderedPublickey := OrderDHPublicKey(mainPath, tx.inputs[i]);
      if rv != Okay {
        return;
      }
      var merged := Merge(tx.InputAt(i, preimage.value), vOrderedPublickey);
      if merged == None {
        return ArgumentsBad, [];
      }
      return Okay, merged.value;
    }

    /** Every input in turn; the first that fails ends the call, and so does an empty transaction. */
    method OrderSignatures(mainPath: string, tx: Transaction)
      returns (rv: RV, mapSignatureOrdered: map<string, seq<string>>)
      requires tx.DeviceSignedEnough(ToAccount(), mainPubKey, mainPath)
      modifies this`orderedIndex
      ensures rv == Okay <==> |tx.inputs| > 0 && forall i :: 0 <= i < |tx.inputs| ==>
                tx.OutcomeOf(ToAccount(), mainPubKey, mainPath, i) == Okay
      ensures rv != Okay && |tx.inputs| > 0 ==>
                exists i :: 0 <= i < |tx.inputs| && rv == tx.OutcomeOf(ToAccount(), mainPubKey, mainPath, i)
                         && forall j :: 0 <= j < i ==> tx.OutcomeOf(ToAccount(), mainPubKey, mainPath, j) == Okay
      ensures |tx.inputs| == 0 ==> rv == ArgumentsBad
      ensures rv == Okay ==> tx.HoldsSignatures(mapSignatureOrdered, ToAccount(), mainPubKey, mainPath, |tx.inputs|)
    {
      hide WriteNumber, Transaction.OutcomeOf, Transaction.SignaturesOf, Transaction.HoldsSignatures,
           Transaction.ReadsDeviceAt;
      ghost var account := ToAccount();
      mapSignatureOrdered := map[];
      tx.HoldsNothing(account, mainPubKey, mainPath);
      for inputIndex := 0 to |tx.inputs|
        invariant account == ToAccount()
        invariant forall j :: 0 <= j < inputIndex ==> tx.OutcomeOf(account, mainPubKey, mainPath, j) == Okay
        invariant tx.HoldsSignatures(mapSignatureOrdered, account, mainPubKey, mainPath, inputIndex)
      {
        var vSignature;
        rv, vSignature := OrderInput(mainPath, tx, inputIndex);
        if rv != Okay {
          return;
        }
        tx.AnotherInput(mapSignatureOrdered, account, mainPubKey, mainPath, inputIndex);
        mapSignatureOrdered := InsertNew(mapSignatureOrdered, WriteNumber(inputIndex, 10), vSignature);
      }
      tx.HoldsSomething(mapSignatureOrdered, account, mainPubKey, mainPath);
      if |mapSignatureOrdered| == 0 {
        rv := ArgumentsBad;
        return;
      }
      rv := Okay;
    }
  }

  lemma {:induction false} PrefixFails(a: Account, mainPath: string, path: Bip44Path, i: nat, k: nat)
    requires i < k && a.DerivedKey(mainPath, path, i).None?
    ensures a.DerivedKeys(mainPath, path, k).None?
  {
    if i < k - 1 {
      PrefixFails(a, mainPath, path, i, k - 1);
    }
  }

  // ---- cosigners agree

  /** The account of a cosigner that registered these xpubs, its own among them. */
  function AccountOf(keyOf: KeyReader, derive: Derivation, n: nat, xpubs: seq<string>): Account {
    var (keys, xpubOf) := Registered(keyOf, xpubs);
    Account(SortedKeys(keys), xpubOf, n, derive)
  }

  ghost predicate OneXpubPerKey(keyOf: KeyReader, xpubs: seq<string>) {
    forall x, y :: x in xpubs && y in xpubs && keyOf(x).Some? && keyOf(x) == keyOf(y) ==> x == y
  }

  ghost predicate SameMembers(xs: seq<string>, ys: seq<string>) {
    forall x :: x in xs <==> x in ys
  }

  /** The registered keys are those of the readable xpubs, each with one of its xpubs. */
  lemma {:induction false} RegisteredFacts(keyOf: KeyReader, xpubs: seq<string>)
    ensures forall k :: k in Registered(keyOf, xpubs).0 <==> k in Registered(keyOf, xpubs).1
    ensures forall k :: k in Registered(keyOf, xpubs).1 ==>
              Registered(keyOf, xpubs).1[k] in xpubs && keyOf(Registered(keyOf, xpubs).1[k]) == Some(k)
    ensures forall x :: x in xpubs && keyOf(x).Some? ==> keyOf(x).value in Registered(keyOf, xpubs).1
  {
    if |xpubs| > 0 {
      var before := xpubs[..|xpubs| - 1];
      RegisteredFacts(keyOf, before);
      assert xpubs == before + [xpubs[|xpubs| - 1]];
    }
  }

  /** The same xpubs in whatever order and with whatever repetitions give the same keys. */
  lemma SameXpubsSameKeys(keyOf: KeyReader, xs: seq<string>, ys: seq<string>)
    requires SameMembers(xs, ys)
    ensures forall k :: k in Registered(keyOf, xs).1 <==> k in Registered(keyOf, ys).1
    ensures SortedKeys(Registered(keyOf, xs).0) == SortedKeys(Registered(keyOf, ys).0)
  {
    hide SortedKeys, Registered;
    RegisteredFacts(keyOf, xs);
    RegisteredFacts(keyOf, ys);
    var keysX, xpubX := Registered(keyOf, xs).0, Registered(keyOf, xs).1;
    var keysY, xpubY := Registered(keyOf, ys).0, Registered(keyOf, ys).1;
    forall k ensures k in xpubX <==> k in xpubY {
      if k in xpubX { assert xpubX[k] in xs && xpubX[k] in ys; }
      if k in xpubY { assert xpubY[k] in ys && xpubY[k] in xs; }
    }
    SortedKeysKeep(keysX);
    SortedKeysKeep(keysY);
    forall k ensures k in SortedKeys(keysX) <==> k in SortedKeys(keysY) {
      assert k in keysX <==> k in xpubX;
      assert k in keysY <==> k in xpubY;
    }
    SortedDistinctUnique(SortedKeys(keysX), SortedKeys(keysY));
  }

  /**
   Cosigners that register the same xpubs, in whatever order and with whatever
   repetitions, have the same account, as long as no two xpubs have the same key.
   */
  lemma CosignersAgree(keyOf: KeyReader, derive: Derivation, n: nat, xs: seq<string>, ys: seq<string>)
    requires SameMembers(xs, ys) && OneXpubPerKey(keyOf, xs)
    ensures AccountOf(keyOf, derive, n, xs) == AccountOf(keyOf, derive, n, ys)
  {
    hide SortedKeys, Registered;
    RegisteredFacts(keyOf, xs);
    RegisteredFacts(keyOf, ys);
    SameXpubsSameKeys(keyOf, xs, ys);
    var xpubX, xpubY := Registered(keyOf, xs).1, Registered(keyOf, ys).1;
    forall k | k in xpubX ensures xpubX[k] == xpubY[k] {
      assert k in xpubY;
      assert xpubY[k] in ys && xpubY[k] in xs && xpubX[k] in xs;
    }
    assert xpubX == xpubY;
  }

  lemma {:induction false} FirstXpubStays(keyOf: KeyReader, x: string, k: string, xs: seq<string>)
    requires keyOf(x) == Some(k)
    ensures k in Registered(keyOf, [x] + xs).1 && Registered(keyOf, [x] + xs).1[k] == x
  {
    if |xs| == 0 {
      assert [x] + xs == [x] && [x][..0] == [];
    } else {
      var m := |xs| - 1;
      assert ([x] + xs)[..m + 1] == [x] + xs[..m];
      FirstXpubStays(keyOf, x, k, xs[..m]);
    }
  }

  /** Two xpubs with one key: the order of registration shows, so the condition above is needed. */
  lemma TwoXpubsDisagree(keyOf: KeyReader, derive: Derivation, n: nat, x: string, y: string, xs: seq<string>)
    requires x != y && x in xs && y in xs && keyOf(x).Some? && keyOf(x) == keyOf(y)
    ensures SameMembers([x] + xs, [y] + xs)
    ensures AccountOf(keyOf, derive, n, [x] + xs) != AccountOf(keyOf, derive, n, [y] + xs)
  {
    FirstXpubStays(keyOf, x, keyOf(x).value, xs);
    FirstXpubStays(keyOf, y, keyOf(x).value, xs);
  }

  /**
   Where a cosigner stands among the derived keys: the keys are a sorted permutation of
   the derived ones, and both indices point at its own key.  A cosigner whose key is not
   among the first n is refused.  Two xpubs with one key do no harm here.
   */
  lemma EveryCosignerOrders(keyOf: KeyReader, derive: Derivation, n: nat,
                            xpubs: seq<string>, own: string, mainPath: string, path: Bip44Path)
    requires own in xpubs && keyOf(own).Some? && keyOf("").None?
    requires n > 0 && AccountOf(keyOf, derive, n, xpubs).DerivedKeys(mainPath, path, n).Some?
    ensures var account := AccountOf(keyOf, derive, n, xpubs);
            var derived := account.DerivedKeys(mainPath, path, n).value;
            var i := Find(account.keys, keyOf(own).value);
            && n <= |account.keys| && i < |account.keys|
            && Sorted(Sort(derived)) && multiset(Sort(derived)) == multiset(derived) && |Sort(derived)| == n
            && match account.Ordered(keyOf(own).value, mainPath, path)
               case Failed(e) => e == ArgumentsBad && n <= i
               case OrderedKeys(keys, index) =>
                 && i < n && keys == Sort(derived) && index < |keys|
                 && account.DerivedKey(mainPath, path, i) == Some(keys[index])
  {
    hide Sort, Registered, CosignerPath, Sorted;
    var account := AccountOf(keyOf, derive, n, xpubs);
    var derived := account.DerivedKeys(mainPath, path, n).value;
    var k := keyOf(own).value;
    RegisteredFacts(keyOf, xpubs);
    SortedKeysKeep(Registered(keyOf, xpubs).0);
    var i := Find(account.keys, k);
    DerivedAt(account, mainPath, path, n, n - 1);
    OwnXpubOnlyOnce(keyOf, account, i);
    SortOrders(derived);
    assert |Sort(derived)| == |multiset(Sort(derived))|;
    if i < n {
      DerivedAt(account, mainPath, path, n, i);
      assert derived[i] in multiset(derived);
      assert derived[i] in Sort(derived);
    }
  }

  /**
   How the ordering ends: well, exactly when all keys can be derived and one's own key is
   among the first n, and then with the sorted keys and the position of one's own.
   */
  lemma OrderedExactly(keyOf: KeyReader, derive: Derivation, n: nat,
                       xpubs: seq<string>, own: string, mainPath: string, path: Bip44Path)
    requires own in xpubs && keyOf(own).Some? && keyOf("").None?
    ensures var account := AccountOf(keyOf, derive, n, xpubs);
            var derived := account.DerivedKeys(mainPath, path, n);
            var k := keyOf(own).value;
            var i := Find(account.keys, k);
            && (n > 0 && derived.Some? ==> i < |account.keys|)
            && match account.Ordered(keyOf(own).value, mainPath, path)
               case Failed(e) =>
                 && e == (if n == 0 then GeneralError else ArgumentsBad)
                 && (n == 0 || derived.None? || n <= i)
               case OrderedKeys(keys, index) =>
                 && n > 0 && derived.Some? && i < n && keys == Sort(derived.value) && index < |keys| == n
                 && k in account.xpubOf
                 && derive(account.xpubOf[k], CosignerPath(mainPath, path, i)) == Some(keys[index])
  {
    hide Sort, SortedKeys, Registered, CosignerPath, Account.Ordered;
    var account := AccountOf(keyOf, derive, n, xpubs);
    RegisteredFacts(keyOf, xpubs);
    OrderedOrNot(account, keyOf(own).value, mainPath, path);
    if n > 0 && account.DerivedKeys(mainPath, path, n).Some? {
      EveryCosignerOrders(keyOf, derive, n, xpubs, own, mainPath, path);
    }
  }

  lemma OrderedOrNot(account: Account, key: string, mainPath: string, path: Bip44Path)
    ensures account.n == 0 ==> account.Ordered(key, mainPath, path) == Failed(GeneralError)
    ensures account.n > 0 && account.DerivedKeys(mainPath, path, account.n).None? ==>
              account.Ordered(key, mainPath, path) == Failed(ArgumentsBad)
  {
  }

  /** Distinct keys have distinct xpubs, so the first cosigner with an xpub is the one of its key. */
  lemma OwnXpubOnlyOnce(keyOf: KeyReader, account: Account, i: nat)
    requires i < |account.keys| && account.n <= |account.keys| && Distinct(account.keys)
    requires forall j :: 0 <= j < |account.keys| ==> account.keys[j] in account.xpubOf
    requires forall k :: k in account.xpubOf ==> keyOf(account.xpubOf[k]) == Some(k)
    ensures account.FirstWith(account.XpubAt(i), account.n) == if i < account.n then i else account.n
  {
    var j := account.FirstWith(account.XpubAt(i), account.n);
    assert forall h: nat :: h < |account.keys| ==> keyOf(account.XpubAt(h)) == Some(account.keys[h]);
    if i < account.n {
      FirstWithFound(account, account.XpubAt(i), account.n, i);
    }
  }

  lemma {:induction false} FirstWithFound(a: Account, x: string, k: nat, i: nat)
    requires i < k && a.XpubAt(i) == x
    ensures a.FirstWith(x, k) <= i
  {
  }

  lemma {:induction false} DerivedAt(a: Account, mainPath: string, path: Bip44Path, k: nat, i: nat)
    requires i < k && a.DerivedKeys(mainPath, path, k).Some?
    ensures a.DerivedKey(mainPath, path, i) == Some(a.DerivedKeys(mainPath, path, k).value[i])
  {
    if i < k - 1 {
      DerivedAt(a, mainPath, path, k - 1, i);
    }
  }

  /** The derived keys: the xpub registered for each key in turn, derived along that cosigner's path. */
  lemma DerivedExactly(keyOf: KeyReader, derive: Derivation, n: nat, xpubs: seq<string>,
                       mainPath: string, path: Bip44Path, k: nat)
    requires keyOf("").None?
    ensures var account := AccountOf(keyOf, derive, n, xpubs);
            var derived := account.DerivedKeys(mainPath, path, k);
            && (forall key :: key in account.keys ==> key in account.xpubOf)
            && (derived.Some? <==>
                && k <= |account.keys|
                && forall j :: 0 <= j < k ==>
                     derive(account.xpubOf[account.keys[j]], CosignerPath(mainPath, path, j)).Some?)
            && (derived.Some? ==>
                  && |derived.value| == k <= |account.keys|
                  && forall j :: 0 <= j < k ==>
                       derive(account.xpubOf[account.keys[j]], CosignerPath(mainPath, path, j))
                       == Some(derived.value[j]))
  {
    hide Registered, SortedKeys, CosignerPath;
    RegisteredFacts(keyOf, xpubs);
    SortedKeysKeep(Registered(keyOf, xpubs).0);
    var account := AccountOf(keyOf, derive, n, xpubs);
    forall j: nat
      ensures account.DerivedKey(mainPath, path, j)
           == if |account.keys| <= j then None
              else derive(account.xpubOf[account.keys[j]], CosignerPath(mainPath, path, j))
    {
      assert j < |account.keys| ==> account.keys[j] in account.keys;
    }
    AllDerived(account, mainPath, path, k);
    assert k > 0 && account.DerivedKeys(mainPath, path, k).Some? ==> account.DerivedKey(mainPath, path, k - 1).Some?;
  }

  lemma {:induction false} AllDerived(a: Account, mainPath: string, path: Bip44Path, k: nat)
    ensures a.DerivedKeys(mainPath, path, k).Some? <==> forall j :: 0 <= j < k ==> a.DerivedKey(mainPath, path, j).Some?
    ensures a.DerivedKeys(mainPath, path, k).Some? ==>
              forall j :: 0 <= j < k ==>
                a.DerivedKey(mainPath, path, j) == Some(a.DerivedKeys(mainPath, path, k).value[j])
  {
    if k > 0 {
      AllDerived(a, mainPath, path, k - 1);
    }
  }

  // ---- two xpubs with one key

  lemma {:induction false} OtherXpubsStay(keyOf: KeyReader, x: string, y: string, k: string, xs: seq<string>)
    requires keyOf(x) == keyOf(y) == Some(k)
    ensures var m, m' := Registered(keyOf, [x] + xs).1, Registered(keyOf, [y] + xs).1;
            forall h :: h != k ==> (h in m <==> h in m') && (h in m ==> m[h] == m'[h])
  {
    hide Registered;
    if |xs| == 0 {
      assert [x] + xs == [] + [x] && [y] + xs == [] + [y];
      RegisteredOneMore(keyOf, [], x);
      RegisteredOneMore(keyOf, [], y);
    } else {
      var before, last := xs[..|xs| - 1], xs[|xs| - 1];
      assert [x] + xs == ([x] + before) + [last] && [y] + xs == ([y] + before) + [last];
      RegisteredOneMore(keyOf, [x] + before, last);
      RegisteredOneMore(keyOf, [y] + before, last);
      OtherXpubsStay(keyOf, x, y, k, before);
    }
  }

  lemma RegisteredOneMore(keyOf: KeyReader, xs: seq<string>, x: string)
    ensures Registered(keyOf, []).1 == map[]
    ensures Registered(keyOf, xs + [x]).1
         == match keyOf(x)
            case None => Registered(keyOf, xs).1
            case Some(k) => InsertNew(Registered(keyOf, xs).1, k, x)
  {
    assert (xs + [x])[..|xs|] == xs;
  }

  lemma WithoutOne(s: seq<string>, i: nat)
    requires i < |s|
    ensures multiset(s) == multiset(s[..i]) + multiset(s[i + 1..]) + multiset{s[i]}
  {
    assert s == s[..i] + [s[i]] + s[i + 1..];
  }

  lemma CancelRest(rest: multiset<string>, x: string, y: string)
    requires rest + multiset{x} == rest + multiset{y}
    ensures x == y
  {
    assert (rest + multiset{x})[x] == rest[x] + 1;
  }

  lemma OneDifference(s: seq<string>, t: seq<string>, i: nat)
    requires i < |s| == |t| && forall j :: 0 <= j < |s| && j != i ==> s[j] == t[j]
    ensures Sort(s) == Sort(t) <==> s[i] == t[i]
  {
    hide Sort, Sorted;
    if s[i] == t[i] {
      assert s == t;
    } else if Sort(s) == Sort(t) {
      SortOrders(s);
      SortOrders(t);
      WithoutOne(s, i);
      WithoutOne(t, i);
      assert s[..i] == t[..i] && s[i + 1..] == t[i + 1..];
      CancelRest(multiset(s[..i]) + multiset(s[i + 1..]), s[i], t[i]);
    }
  }

  /**
   Two cosigners that saw two xpubs with one key in different orders get the same
   ordered keys exactly when both xpubs derive the same key: otherwise their scripts differ.
   */
  lemma TwoXpubsTwoOrders(keyOf: KeyReader, derive: Derivation, n: nat, x: string, y: string, xs: seq<string>,
                          mainPath: string, path: Bip44Path)
    requires x in xs && y in xs && keyOf(x).Some? && keyOf(x) == keyOf(y) && keyOf("").None?
    requires AccountOf(keyOf, derive, n, [x] + xs).Ordered(keyOf(x).value, mainPath, path).OrderedKeys?
    requires AccountOf(keyOf, derive, n, [y] + xs).Ordered(keyOf(x).value, mainPath, path).OrderedKeys?
    ensures var a, b := AccountOf(keyOf, derive, n, [x] + xs), AccountOf(keyOf, derive, n, [y] + xs);
            var own := CosignerPath(mainPath, path, Find(a.keys, keyOf(x).value));
            (a.Ordered(keyOf(x).value, mainPath, path).keys == b.Ordered(keyOf(x).value, mainPath, path).keys
             <==> derive(x, own) == derive(y, own))
  {
    hide Sort, SortedKeys, Registered, CosignerPath, Account.Ordered;
    var a, b := AccountOf(keyOf, derive, n, [x] + xs), AccountOf(keyOf, derive, n, [y] + xs);
    var k := keyOf(x).value;
    var i := Find(a.keys, k);
    SameXpubsSameKeys(keyOf, [x] + xs, [y] + xs);
    FirstXpubStays(keyOf, x, k, xs);
    FirstXpubStays(keyOf, y, k, xs);
    OtherXpubsStay(keyOf, x, y, k, xs);
    OrderedExactly(keyOf, derive, n, [x] + xs, x, mainPath, path);
    OrderedExactly(keyOf, derive, n, [y] + xs, y, mainPath, path);
    var s, t := a.DerivedKeys(mainPath, path, n).value, b.DerivedKeys(mainPath, path, n).value;
    KeysDistinct(keyOf, derive, n, [x] + xs);
    forall j | 0 <= j < n
      ensures a.DerivedKey(mainPath, path, j) == Some(s[j]) && b.DerivedKey(mainPath, path, j) == Some(t[j])
      ensures j != i ==> s[j] == t[j]
    {
      DerivedAt(a, mainPath, path, n, j);
      DerivedAt(b, mainPath, path, n, j);
    }
    OneDifference(s, t, i);
  }

  lemma KeysDistinct(keyOf: KeyReader, derive: Derivation, n: nat, xpubs: seq<string>)
    ensures Distinct(AccountOf(keyOf, derive, n, xpubs).keys)
  {
    SortedKeysKeep(Registered(keyOf, xpubs).0);
  }

  // ---- two cosigners side by side

  /** What one cosigner ends with. */
  datatype View = View(isValid: bool, rv: RV, keys: seq<string>, orderedIndex: int)

  /** A cosigner's whole run: configuration, its own xpub, the keys of one path. */
  method Cosign(m: nat, n: nat, xpubs: seq<string>, own: string, keyOf: KeyReader,
                derive: Derivation, mainPath: string, path: Bip44Path) returns (v: View)
    requires keyOf(own).Some?
    ensures v.isValid <==> |xpubs| < 15 && m <= 15 && n <= 15 && forall x :: x in xpubs ==> keyOf(x).Some?
    ensures v.isValid ==>
              match AccountOf(keyOf, derive, n, xpubs + [own]).Ordered(keyOf(own).value, mainPath, path)
              case Failed(e) => v.rv == e && v.keys == []
              case OrderedKeys(keys, index) => v.rv == Okay && v.keys == keys && v.orderedIndex == index
  {
    hide Sort, SortedKeys, CosignerPath;
    var context := new BTCContextMultiSigExt(m, n, xpubs, keyOf, derive);
    assert context.isValid ==> xpubs[..ReadableCount(keyOf, xpubs)] == xpubs;
    assert forall i :: 0 <= i < |xpubs| ==> xpubs[i] in xpubs;
    context.Order(own);
    assert context.isValid ==> context.ToAccount() == AccountOf(keyOf, derive, n, xpubs + [own]);
    var rv, keys := context.OrderDHPublicKey(mainPath, path);
    return View(context.isValid, rv, keys, context.orderedIndex);
  }

  /**
   Two cosigners of one account, each configured in its own order and with its own xpub:
   each succeeds exactly when all keys can be derived and its own is among the first n,
   and then both hold the same keys, each with the index of its own among them.
   */
  method TwoCosigners(m: nat, n: nat, xs: seq<string>, ownX: string, ys: seq<string>, ownY: string,
                      keyOf: KeyReader, derive: Derivation,
                      mainPath: string, path: Bip44Path) returns (x: View, y: View)
    requires keyOf(ownX).Some? && keyOf(ownY).Some? && keyOf("").None?
    requires SameMembers(xs + [ownX], ys + [ownY]) && OneXpubPerKey(keyOf, xs + [ownX])
    ensures var account := AccountOf(keyOf, derive, n, xs + [ownX]);
            var derivable := n > 0 && account.DerivedKeys(mainPath, path, n).Some?;
            var i, j := Find(account.keys, keyOf(ownX).value), Find(account.keys, keyOf(ownY).value);
            && (x.isValid ==> (x.rv == Okay <==> derivable && i < n))
            && (y.isValid ==> (y.rv == Okay <==> derivable && j < n))
            && (x.isValid && x.rv == Okay ==>
                  0 <= x.orderedIndex < |x.keys| == n
                  && derive(ownX, CosignerPath(mainPath, path, i)) == Some(x.keys[x.orderedIndex]))
            && (y.isValid && y.rv == Okay ==>
                  0 <= y.orderedIndex < |y.keys| == n
                  && derive(ownY, CosignerPath(mainPath, path, j)) == Some(y.keys[y.orderedIndex]))
            && (x.isValid && y.isValid && x.rv == y.rv == Okay ==> x.keys == y.keys)
            && (x.isValid && y.isValid && |account.keys| == n ==> x.rv == y.rv)
  {
    hide Sort, SortedKeys, Registered, CosignerPath, Account.Ordered;
    x := Cosign(m, n, xs, ownX, keyOf, derive, mainPath, path);
    y := Cosign(m, n, ys, ownY, keyOf, derive, mainPath, path);
    CosignersAgree(keyOf, derive, n, xs + [ownX], ys + [ownY]);
    RegisteredFacts(keyOf, xs + [ownX]);
    OrderedExactly(keyOf, derive, n, xs + [ownX], ownX, mainPath, path);
    OrderedExactly(keyOf, derive, n, ys + [ownY], ownY, mainPath, path);
  }
}
