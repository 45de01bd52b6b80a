/** Hexadecimal keys in the order of their texts: what sort, unique and find of the C++ library do. */
module KeyOrder {

  /** operator <= of std::string. */
  predicate AtMost(s: string, t: string) {
    s == "" || (t != "" && (s[0] < t[0] || (s[0] == t[0] && AtMost(s[1..], t[1..]))))
  }

  lemma {:induction false} AtMostTotal(s: string, t: string)
    ensures AtMost(s, t) || AtMost(t, s)
    ensures AtMost(s, t) && AtMost(t, s) ==> s == t
  {
    if s != "" && t != "" && s[0] == t[0] {
      AtMostTotal(s[1..], t[1..]);
      assert s == [s[0]] + s[1..] && t == [t[0]] + t[1..];
    }
  }

  lemma {:induction false} AtMostTransitive(s: string, t: string, u: string)
    requires AtMost(s, t) && AtMost(t, u)
    ensures AtMost(s, u)
  {
    if s != "" && s[0] == t[0] == u[0] {
      AtMostTransitive(s[1..], t[1..], u[1..]);
    }
  }

  /** s and t agree below place k, where s holds the smaller symbol. */
  predicate SmallerAt(s: string, t: string, k: nat) {
    k < |s| && k < |t| && s[..k] == t[..k] && s[k] < t[k]
  }

  lemma SmallerFurther(c: char, s: string, t: string, k: nat)
    ensures SmallerAt([c] + s, [c] + t, k + 1) <==> SmallerAt(s, t, k)
    ensures !SmallerAt([c] + s, [c] + t, 0)
    ensures [c] + s <= [c] + t <==> s <= t
  {
    var s', t' := [c] + s, [c] + t;
    assert s'[1..] == s && t'[1..] == t;
    if k < |s| && k < |t| {
      assert s'[..k + 1] == [c] + s[..k] && t'[..k + 1] == [c] + t[..k];
      assert s'[..k + 1][1..] == s[..k] && t'[..k + 1][1..] == t[..k];
    }
  }

  lemma SmallerAtOnce(s: string, t: string, k: nat)
    requires s != "" && t != "" && s[0] != t[0]
    ensures SmallerAt(s, t, k) <==> k == 0 && s[0] < t[0]
    ensures !(s <= t)
  {
    if 0 < k < |s| && k < |t| {
      assert s[..k][0] != t[..k][0];
    }
  }

  lemma {:induction false} AtMostMeans(s: string, t: string)
    ensures AtMost(s, t) <==> s <= t || exists k: nat :: SmallerAt(s, t, k)
  {
    hide SmallerAt;
    if s != "" && t != "" {
      if s[0] == t[0] {
        assert s == [s[0]] + s[1..] && t == [t[0]] + t[1..];
        AtMostMeans(s[1..], t[1..]);
        SmallerFurther(s[0], s[1..], t[1..], 0);
        if k: nat :| SmallerAt(s[1..], t[1..], k) {
          SmallerFurther(s[0], s[1..], t[1..], k);
          assert SmallerAt(s, t, k + 1);
        }
        if k: nat :| SmallerAt(s, t, k) {
          assert k > 0;
          SmallerFurther(s[0], s[1..], t[1..], k - 1);
          assert SmallerAt(s[1..], t[1..], k - 1);
        }
      } else {
        forall k: nat ensures SmallerAt(s, t, k) <==> k == 0 && s[0] < t[0] {
          SmallerAtOnce(s, t, k);
        }
        SmallerAtOnce(s, t, 0);
      }
    } else {
      NotSmaller(s, t);
    }
  }

  lemma NotSmaller(s: string, t: string)
    requires s == "" || t == ""
    ensures forall k: nat :: !SmallerAt(s, t, k)
  {
  }

  /** s comes first exactly when t begins with it or holds the larger symbol where they first differ. */
  lemma AtMostIsLexicographic(s: string, t: string)
    ensures AtMost(s, t) <==> s <= t || exists k :: 0 <= k < |s| && k < |t| && s[..k] == t[..k] && s[k] < t[k]
  {
    AtMostMeans(s, t);
    assert forall k: nat :: SmallerAt(s, t, k) <==> k < |s| && k < |t| && s[..k] == t[..k] && s[k] < t[k];
  }

  predicate Sorted(ks: seq<string>) {
    forall i, j :: 0 <= i < j < |ks| ==> AtMost(ks[i], ks[j])
  }

  predicate Distinct(ks: seq<string>) {
    forall i, j :: 0 <= i < j < |ks| ==> ks[i] != ks[j]
  }

  // ---- std::sort

  function Insert(k: string, ks: seq<string>): seq<string> {
    if |ks| == 0 || AtMost(k, ks[0]) then [k] + ks else [ks[0]] + Insert(k, ks[1..])
  }

  function Sort(ks: seq<string>): seq<string> {
    if |ks| == 0 then [] else Insert(ks[0], Sort(ks[1..]))
  }

  lemma {:induction false} InsertKeeps(k: string, ks: seq<string>)
    requires Sorted(ks)
    ensures Sorted(Insert(k, ks))
    ensures multiset(Insert(k, ks)) == multiset(ks) + multiset{k}
  {
    hide AtMost;
    if |ks| > 0 && !AtMost(k, ks[0]) {
      assert ks == [ks[0]] + ks[1..];
      InsertKeeps(k, ks[1..]);
      AtMostTotal(k, ks[0]);
      var t := Insert(k, ks[1..]);
      forall x | x in t ensures AtMost(ks[0], x) {
        assert x in multiset(t);
      }
      LeastInFront(ks[0], t);
    } else if |ks| > 0 {
      forall i | 0 <= i < |ks| ensures AtMost(k, ks[i]) {
        if i > 0 {
          AtMostTransitive(k, ks[0], ks[i]);
        }
      }
    }
  }

  lemma LeastInFront(k: string, t: seq<string>)
    requires Sorted(t) && forall x :: x in t ==> AtMost(k, x)
    ensures Sorted([k] + t)
  {
  }

  /** Sorting orders and loses or adds nothing. */
  lemma {:induction false} SortOrders(ks: seq<string>)
    ensures Sorted(Sort(ks))
    ensures multiset(Sort(ks)) == multiset(ks)
  {
    if |ks| > 0 {
      assert ks == [ks[0]] + ks[1..];
      SortOrders(ks[1..]);
      InsertKeeps(ks[0], Sort(ks[1..]));
    }
  }

  // ---- std::unique followed by erase

  function Unique(ks: seq<string>): seq<string> {
    if |ks| <= 1 then ks
    else if ks[0] == ks[1] then Unique(ks[1..])
    else [ks[0]] + Unique(ks[1..])
  }

  lemma {:induction false} UniqueKeeps(ks: seq<string>)
    requires Sorted(ks)
    ensures Sorted(Unique(ks)) && Distinct(Unique(ks))
    ensures forall k :: k in Unique(ks) <==> k in ks
  {
    if |ks| > 1 {
      assert ks == [ks[0]] + ks[1..];
      UniqueKeeps(ks[1..]);
      var t := Unique(ks[1..]);
      if ks[0] != ks[1] {
        forall x | x in t ensures AtMost(ks[0], x) && x != ks[0] {
          var i :| 0 <= i < |ks[1..]| && ks[1..][i] == x;
          AtMostTotal(ks[0], ks[1]);
          assert i > 0 ==> AtMost(ks[1], ks[i + 1]);
        }
      }
    }
  }

  /** The sorted list of the distinct keys, as the context keeps it. */
  function SortedKeys(ks: seq<string>): seq<string> {
    Unique(Sort(ks))
  }

  lemma SortedKeysKeep(ks: seq<string>)
    ensures Sorted(SortedKeys(ks)) && Distinct(SortedKeys(ks))
    ensures forall k :: k in SortedKeys(ks) <==> k in ks
  {
    SortOrders(ks);
    UniqueKeeps(Sort(ks));
    forall k ensures k in Sort(ks) <==> k in ks {
      assert k in multiset(Sort(ks)) <==> k in multiset(ks);
    }
  }

  /** A sorted list without repetition is determined by its elements. */
  lemma {:induction false} SortedDistinctUnique(ks: seq<string>, ls: seq<string>)
    requires Sorted(ks) && Distinct(ks) && Sorted(ls) && Distinct(ls)
    requires forall k :: k in ks <==> k in ls
    ensures ks == ls
  {
    assert |ls| > 0 ==> ls[0] in ls;
    if |ks| > 0 {
      assert ks[0] in ls && ls != [];
      assert ls[0] in ks;
      HeadIsLeast(ks, ls[0]);
      HeadIsLeast(ls, ks[0]);
      AtMostTotal(ks[0], ls[0]);
      forall k ensures k in ks[1..] <==> k in ls[1..] {
        TailMembers(ks, k);
        TailMembers(ls, k);
      }
      SortedDistinctUnique(ks[1..], ls[1..]);
      assert ks == [ks[0]] + ks[1..] && ls == [ls[0]] + ls[1..];
    }
  }

  lemma HeadIsLeast(ks: seq<string>, k: string)
    requires Sorted(ks) && k in ks
    ensures AtMost(ks[0], k)
  {
    AtMostTotal(k, k);
  }

  lemma TailMembers(ks: seq<string>, k: string)
    requires |ks| > 0 && Distinct(ks)
    ensures k in ks[1..] <==> k in ks && k != ks[0]
  {
    if k in ks && k != ks[0] {
      var i :| 0 <= i < |ks| && ks[i] == k;
      assert ks[1..][i - 1] == k;
    }
  }

  // ---- std::find

  /** The first position of k, or the length if there is none. */
  function Find(ks: seq<string>, k: string): (i: nat)
    ensures i <= |ks|
    ensures i < |ks| ==> ks[i] == k
    ensures i < |ks| <==> k in ks
    ensures forall j :: 0 <= j < i ==> ks[j] != k
  {
    if |ks| == 0 || ks[0] == k then 0 else 1 + Find(ks[1..], k)
  }
}
