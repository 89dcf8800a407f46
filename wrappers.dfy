/** Small helper types and sequence utilities shared by the other modules. */
module Wrappers {

  /** JavaScript's `null`/`undefined` versus a present value. */
  datatype Option<+T> = None | Some(value: T)

  /** True when every element of `s` occurs once: the key order of a JavaScript `Map`. */
  predicate Distinct<T(==)>(s: seq<T>) {
    forall i, j :: 0 <= i < j < |s| ==> s[i] != s[j]
  }

  /** `s` with every occurrence of `x` taken out, the rest in their order. */
  function Remove<T(==)>(s: seq<T>, x: T): (r: seq<T>)
    ensures |r| <= |s|
  {
    if s == [] then []
    else (if s[0] == x then [] else [s[0]]) + Remove(s[1..], x)
  }

  lemma {:induction false} RemoveMembers<T>(s: seq<T>, x: T)
    ensures forall y :: y in Remove(s, x) <==> y in s && y != x
  {
    if s != [] {
      RemoveMembers(s[1..], x);
      assert s == [s[0]] + s[1..];
    }
  }

  lemma {:induction false} RemoveConcat<T>(a: seq<T>, b: seq<T>, x: T)
    ensures Remove(a + b, x) == Remove(a, x) + Remove(b, x)
  {
    if a == [] {
      assert a + b == b;
    } else {
      var head := if a[0] == x then [] else [a[0]];
      assert (a + b)[0] == a[0];
      assert (a + b)[1..] == a[1..] + b;
      assert Remove(a + b, x) == head + Remove(a[1..] + b, x);
      RemoveConcat(a[1..], b, x);
      assert Remove(a, x) == head + Remove(a[1..], x);
    }
  }

  lemma {:induction false} RemoveAbsent<T>(s: seq<T>, x: T)
    requires x !in s
    ensures Remove(s, x) == s
  {
    if s != [] {
      assert s[0] != x;
      assert x !in s[1..];
      RemoveAbsent(s[1..], x);
      assert s == [s[0]] + s[1..];
    }
  }

  lemma RemoveSingleton<T>(x: T)
    ensures Remove([x], x) == []
  {
    assert [x][1..] == [];
  }

  lemma DistinctWithout<T>(s: seq<T>, i: nat)
    requires Distinct(s) && i < |s|
    ensures Distinct(s[..i] + s[i + 1..])
    ensures s[i] !in s[..i] && s[i] !in s[i + 1..]
  {
    var r := s[..i] + s[i + 1..];
    forall a, b | 0 <= a < b < |r| ensures r[a] != r[b] {
      var a' := if a < i then a else a + 1;
      var b' := if b < i then b else b + 1;
      assert r[a] == s[a'] && r[b] == s[b'];
    }
    forall j | 0 <= j < i ensures s[..i][j] != s[i] { assert s[..i][j] == s[j]; }
    forall j | i + 1 <= j < |s| ensures s[j] != s[i] { }
  }

  /** Removing an element of a distinct sequence closes the gap it leaves. */
  lemma RemoveAt<T>(s: seq<T>, i: nat)
    requires Distinct(s) && i < |s|
    ensures Remove(s, s[i]) == s[..i] + s[i + 1..]
    ensures Distinct(Remove(s, s[i]))
    ensures |Remove(s, s[i])| == |s| - 1
  {
    DistinctWithout(s, i);
    RemoveOnly(s, i);
  }

  lemma RemoveOnly<T>(s: seq<T>, i: nat)
    requires i < |s| && s[i] !in s[..i] && s[i] !in s[i + 1..]
    ensures Remove(s, s[i]) == s[..i] + s[i + 1..]
  {
    var x, a, b := s[i], s[..i], s[i + 1..];
    RemoveAbsent(a, x);
    RemoveAbsent(b, x);
    RemoveSingleton(x);
    RemoveConcat([x], b, x);
    var t := [x] + b;
    assert Remove(t, x) == b;
    RemoveConcat(a, t, x);
    assert s == a + t;
  }

  /** JavaScript `String.prototype.startsWith`. */
  predicate StartsWith(s: string, prefix: string) {
    |prefix| <= |s| && s[..|prefix|] == prefix
  }

  /** JavaScript `String.prototype.endsWith`. */
  predicate EndsWith(s: string, suffix: string) {
    |suffix| <= |s| && s[|s| - |suffix|..] == suffix
  }

  /** JavaScript `String.prototype.lastIndexOf` for one character: -1 when absent. */
  function LastIndexOf(s: string, c: char): (r: int)
    ensures -1 <= r < |s|
    ensures r >= 0 ==> s[r] == c
    ensures forall j :: r < j < |s| ==> s[j] != c
  {
    if s == [] then -1
    else if s[|s| - 1] == c then |s| - 1
    else LastIndexOf(s[..|s| - 1], c)
  }

  /** Ending in `suffix`, a dot followed by text without dots, means that text follows the last dot. */
  lemma EndsWithDotSuffix(p: string, suffix: string)
    requires |suffix| >= 1 && suffix[0] == '.' && '.' !in suffix[1..]
    ensures EndsWith(p, suffix) <==> LastIndexOf(p, '.') >= 0 && p[LastIndexOf(p, '.') + 1..] == suffix[1..]
  {
    var d := LastIndexOf(p, '.');
    if EndsWith(p, suffix) {
      var pos := |p| - |suffix|;
      assert p[pos] == suffix[0];
      assert forall j :: pos < j < |p| ==> p[j] == suffix[1..][j - pos - 1];
      assert d == pos;
      assert p[d + 1..] == suffix[1..];
    }
    if d >= 0 && p[d + 1..] == suffix[1..] {
      assert p[|p| - |suffix|..] == [p[d]] + p[d + 1..];
    }
  }
}
