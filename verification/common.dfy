/** Shared vocabulary of the model: optional values, string prefixes and
    substrings as Python's `str.startswith` and `in` see them, sequences
    without repeated values, subsequences and list slicing. */
module Common {

  /** A value that may be absent: Python's `None`, an element `find` did
      not find, a parser that did not match. */
  datatype Option<+T> = None | Some(value: T) {

    /** The value, or `default` when there is none (`dict.get(k, default)`). */
    function GetOr(default: T): T {
      match this
      case Some(v) => v
      case None => default
    }
  }

  function Min(a: int, b: int): int { if a <= b then a else b }

  function Max(a: int, b: int): int { if a <= b then b else a }

  /** `s.startswith(prefix)`. */
  predicate StartsWith(s: string, prefix: string) {
    |prefix| <= |s| && s[..|prefix|] == prefix
  }

  /** Python's `sub in s`: `sub` occurs at some position of `s`. */
  predicate Contains(s: string, sub: string)
    decreases |s|
  {
    StartsWith(s, sub) || (|s| > 0 && Contains(s[1..], sub))
  }

  /** No value occurs twice in `s`. */
  ghost predicate Distinct<T>(s: seq<T>) {
    forall i, j | 0 <= i < j < |s| :: s[i] != s[j]
  }

  /** Python's `set(s)`. */
  function ToSet<T(!new)>(s: seq<T>): (r: set<T>)
    ensures forall x :: x in r <==> x in s
    ensures |r| <= |s|
  {
    if |s| == 0 then {} else {s[0]} + ToSet(s[1..])
  }

  /** The cardinality test the source uses for duplicates,
      `len(s) != len(set(s))`, detects exactly a repeated value. */
  lemma {:induction false} DistinctIffNoShrink<T(!new)>(s: seq<T>)
    ensures |ToSet(s)| == |s| <==> Distinct(s)
  {
    if |s| > 0 {
      DistinctIffNoShrink(s[1..]);
      var rest := ToSet(s[1..]);
      if s[0] in s[1..] {
        var k :| 0 <= k < |s[1..]| && s[1..][k] == s[0];
        assert s[0] == s[k + 1];
        assert {s[0]} + rest == rest;
      } else {
        assert s[0] !in rest;
        assert |{s[0]} + rest| == |rest| + 1;
        assert Distinct(s[1..]) ==> Distinct(s) by {
          if Distinct(s[1..]) {
            forall i, j | 0 <= i < j < |s| ensures s[i] != s[j] {
              if i == 0 {
                assert s[j] == s[1..][j - 1];
              } else {
                assert s[i] == s[1..][i - 1] && s[j] == s[1..][j - 1];
              }
            }
          }
        }
        assert Distinct(s) ==> Distinct(s[1..]) by {
          if Distinct(s) {
            forall i, j | 0 <= i < j < |s[1..]| ensures s[1..][i] != s[1..][j] {
              assert s[1..][i] == s[i + 1] && s[1..][j] == s[j + 1];
            }
          }
        }
      }
    }
  }

  /** `a` is `b` with some elements left out and the rest kept in order. */
  ghost predicate Subseq<T>(a: seq<T>, b: seq<T>)
    decreases |b|
  {
    if |a| == 0 then true
    else if |b| == 0 then false
    else (a[0] == b[0] && Subseq(a[1..], b[1..])) || Subseq(a, b[1..])
  }

  /** Python's slice `s[:n]`: the first `n` elements, or all of `s`
      when it is shorter. */
  function Take<T>(s: seq<T>, n: nat): (r: seq<T>)
    ensures |r| == Min(n, |s|)
    ensures forall k | 0 <= k < |r| :: r[k] == s[k]
  {
    if n >= |s| then s else s[..n]
  }
}
