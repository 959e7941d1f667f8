/** Characters and strings as the C++ program sees them: a std::string is a
    sequence of 8-bit chars, modelled here as characters whose code is below 256. */
module Text {

  type Char8 = c: char | c as int < 256
  type Str = seq<Char8>

  datatype Option<+T> = None | Some(value: T)

  /** `n` copies of `c`: what std::string::append(n, c) adds. */
  function Repeat(c: Char8, n: nat): (r: Str)
    ensures |r| == n
    ensures forall i :: 0 <= i < n ==> r[i] == c
  {
    if n == 0 then [] else [c] + Repeat(c, n - 1)
  }

  /** The position of the first `c` in `s`, or None where std::string::find
      returns npos. */
  function Find(s: Str, c: Char8): (r: Option<nat>)
    ensures r.None? <==> c !in s
    ensures r.Some? ==> r.value < |s| && s[r.value] == c && c !in s[..r.value]
  {
    if s == [] then None
    else if s[0] == c then Some(0)
    else match Find(s[1..], c)
         case None => None
         case Some(i) => Some(i + 1)
  }

  /** A `c` that follows a `c`-free prefix is the first one. */
  lemma {:induction false} FindAt(a: Str, c: Char8, b: Str)
    requires c !in a
    ensures Find(a + [c] + b, c) == Some(|a|)
  {
    if a == [] {
      assert a + [c] + b == [c] + b;
    } else {
      assert (a + [c] + b)[1..] == a[1..] + [c] + b;
      FindAt(a[1..], c, b);
    }
  }

  /** The strings of `ss` written one after the other. */
  function Flatten<T>(ss: seq<seq<T>>): seq<T>
  {
    if ss == [] then [] else Flatten(ss[..|ss| - 1]) + ss[|ss| - 1]
  }

  predicate Distinct<T(==)>(s: seq<T>)
  {
    forall i, j :: 0 <= i < j < |s| ==> s[i] != s[j]
  }

  /** `order` lists every key of `m` exactly once: one possible iteration order
      of an unordered map. */
  predicate IsEnumeration<K, V>(order: seq<K>, m: map<K, V>)
  {
    && Distinct(order)
    && (forall k :: k in order ==> k in m)
    && (forall k :: k in m ==> k in order)
  }

  /** `order` lists, once each, the keys of `keys` not in `remaining`: the
      state of a loop that visits a map's keys one at a time. */
  predicate Visited<K>(order: seq<K>, keys: set<K>, remaining: set<K>)
  {
    && remaining <= keys
    && Distinct(order)
    && (forall k :: k in order ==> k in keys && k !in remaining)
    && (forall k :: k in keys && k !in remaining ==> k in order)
  }

  lemma VisitStep<K>(order: seq<K>, keys: set<K>, remaining: set<K>, k: K)
    requires Visited(order, keys, remaining)
    requires k in remaining
    ensures Visited(order + [k], keys, remaining - {k})
  {
  }

  /** Once nothing remains, the visiting order is an enumeration of the map. */
  lemma VisitDone<K, V>(order: seq<K>, m: map<K, V>)
    requires Visited(order, m.Keys, {})
    ensures IsEnumeration(order, m)
  {
  }

  /** An enumeration of a map is exactly as long as the map is large. */
  lemma {:induction false} EnumerationLength<K, V>(order: seq<K>, m: map<K, V>)
    requires IsEnumeration(order, m)
    ensures |order| == |m|
  {
    if order == [] {
      assert m.Keys == {};
    } else {
      var k := order[0];
      var m' := map x | x in m && x != k :: m[x];
      assert m'.Keys == m.Keys - {k};
      assert IsEnumeration(order[1..], m') by {
        forall x | x in order[1..] ensures x in m' {
          var j :| 0 <= j < |order[1..]| && order[1..][j] == x;
          assert order[j + 1] == x;
        }
        forall x | x in m' ensures x in order[1..] {
          assert x in order;
          var j :| 0 <= j < |order| && order[j] == x;
          assert j != 0;
          assert order[1..][j - 1] == x;
        }
      }
      EnumerationLength(order[1..], m');
    }
  }
}
