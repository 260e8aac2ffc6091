/**
 * String helpers the route handlers rely on: prefix tests (`startsWith`),
 * `split`/`join` on a separator, and the decimal text of a number (`toString`).
 */
module Strings {
  import opened Wrappers

  /** `s.startsWith(prefix)`: `s` agrees with `prefix` on every position of `prefix`. */
  predicate StartsWith(s: string, prefix: string)
    ensures StartsWith(s, prefix) <==>
      |prefix| <= |s| && forall i :: 0 <= i < |prefix| ==> s[i] == prefix[i]
  {
    |prefix| <= |s| && s[..|prefix|] == prefix
  }

  /** A string that differs from `prefix` at position `k` does not start with it. */
  lemma DiffersAt(s: string, prefix: string, k: nat)
    requires k < |prefix| && k < |s| && s[k] != prefix[k]
    ensures !StartsWith(s, prefix)
  {
    if |prefix| <= |s| {
      assert s[..|prefix|][k] == s[k];
    }
  }

  /** `sep` occurs in `s` starting at position `k`. */
  predicate OccursAt(s: string, sep: string, k: nat)
  {
    k + |sep| <= |s| && s[k..k + |sep|] == sep
  }

  /** `s` holds no complete occurrence of `sep`. */
  ghost predicate Free(s: string, sep: string)
  {
    forall k: nat :: !OccursAt(s, sep, k)
  }

  /** Position of the first occurrence of `sep` in `s`, if any (`indexOf`). */
  function IndexOf(s: string, sep: string): (r: Option<nat>)
    requires |sep| > 0
    ensures r.Some? ==> OccursAt(s, sep, r.value)
    ensures r.Some? ==> forall k: nat :: k < r.value ==> !OccursAt(s, sep, k)
    ensures r.None? ==> Free(s, sep)
    decreases |s|
  {
    if |s| < |sep| then None
    else if s[..|sep|] == sep then Some(0)
    else
      var r := IndexOf(s[1..], sep);
      assert !OccursAt(s, sep, 0);
      forall k: nat | k >= 1 ensures OccursAt(s, sep, k) <==> OccursAt(s[1..], sep, k - 1) {
        OccursShift(s, sep, k - 1);
      }
      if r.None? then None else Some(r.value + 1)
  }

  lemma OccursShift(s: string, sep: string, k: nat)
    requires |s| >= 1
    ensures OccursAt(s, sep, k + 1) <==> OccursAt(s[1..], sep, k)
  {
    if k + 1 + |sep| <= |s| {
      assert s[1..][k..k + |sep|] == s[k + 1..k + 1 + |sep|];
    }
  }

  /** An occurrence inside a prefix is an occurrence in the whole string. */
  lemma OccursInPrefix(s: string, sep: string, m: nat, j: nat)
    requires m <= |s| && OccursAt(s[..m], sep, j)
    ensures OccursAt(s, sep, j) && j + |sep| <= m
  {
    assert s[..m][j..j + |sep|] == s[j..j + |sep|];
  }

  /** A string that avoids the characters of a non-empty `sep` holds no occurrence of it. */
  lemma AvoidingIsFree(p: string, sep: string, k: nat)
    requires |sep| > 0 && AvoidsChars(p, sep)
    ensures !OccursAt(p, sep, k)
  {
    if k + |sep| <= |p| {
      assert sep[0] in sep && p[k] in p;
      assert p[k..k + |sep|][0] != sep[0];
    }
  }

  /** `parts.join(sep)`: the parts with `sep` between neighbours; "" for no parts. */
  function Join(parts: seq<string>, sep: string): (s: string)
    ensures |parts| >= 1 ==> |s| == TotalLength(parts) + (|parts| - 1) * |sep|
    ensures |parts| >= 1 ==> StartsWith(s, parts[0])
    decreases |parts|
  {
    if |parts| == 0 then ""
    else if |parts| == 1 then parts[0]
    else parts[0] + sep + Join(parts[1..], sep)
  }

  /** The combined length of the parts. */
  function TotalLength(parts: seq<string>): nat
    decreases |parts|
  {
    if |parts| == 0 then 0 else |parts[0]| + TotalLength(parts[1..])
  }

  /**
   * `s.split(sep)` for a non-empty separator: the pieces between successive
   * occurrences of `sep`, scanning from the left. Joining them back with
   * `sep` gives `s` again, and no piece contains `sep`.
   */
  function Split(s: string, sep: string): (parts: seq<string>)
    requires |sep| > 0
    ensures |parts| >= 1
    ensures Join(parts, sep) == s
    ensures forall i :: 0 <= i < |parts| ==> Free(parts[i], sep)
    ensures forall i :: 0 <= i < |parts| - 1 ==> EndsAtFirst(parts[i], sep)
    decreases |s|
  {
    match IndexOf(s, sep)
    case None => [s]
    case Some(k) =>
      var rest := Split(s[k + |sep|..], sep);
      PrefixBeforeFirstIsFree(s, sep, k);
      FirstPieceEndsAtFirst(s, sep, k);
      JoinCons(s[..k], rest, sep);
      assert s == s[..k] + sep + s[k + |sep|..];
      [s[..k]] + rest
  }

  /**
   * The separator after piece `p` is the leftmost occurrence in `p + sep`:
   * none starts inside `p`, not even one running into the separator.
   */
  ghost predicate EndsAtFirst(p: string, sep: string)
  {
    forall k: nat :: k < |p| ==> !OccursAt(p + sep, sep, k)
  }

  /** The piece before the first occurrence of `sep` ends where that occurrence starts. */
  lemma FirstPieceEndsAtFirst(s: string, sep: string, k: nat)
    requires OccursAt(s, sep, k)
    requires forall j: nat :: j < k ==> !OccursAt(s, sep, j)
    ensures EndsAtFirst(s[..k], sep)
  {
    assert s[..k] + sep == s[..k + |sep|];
    forall j: nat | j < k ensures !OccursAt(s[..k] + sep, sep, j) {
      if OccursAt(s[..k + |sep|], sep, j) {
        OccursInPrefix(s, sep, k + |sep|, j);
      }
    }
  }

  /** The text before the first occurrence of `sep` holds no occurrence of it. */
  lemma PrefixBeforeFirstIsFree(s: string, sep: string, k: nat)
    requires |sep| > 0 && k <= |s|
    requires forall j: nat :: j < k ==> !OccursAt(s, sep, j)
    ensures Free(s[..k], sep)
  {
    forall j: nat ensures !OccursAt(s[..k], sep, j) {
      if OccursAt(s[..k], sep, j) {
        OccursInPrefix(s, sep, k, j);
      }
    }
  }

  /** Joining a part in front of a non-empty list puts one separator between them. */
  lemma JoinCons(p: string, rest: seq<string>, sep: string)
    requires |rest| >= 1
    ensures Join([p] + rest, sep) == p + sep + Join(rest, sep)
  {
    assert ([p] + rest)[1..] == rest;
  }

  /** An occurrence that ends within the first `m` characters is an occurrence in that prefix. */
  lemma OccursInTake(s: string, sep: string, m: nat, j: nat)
    requires m <= |s| && OccursAt(s, sep, j) && j + |sep| <= m
    ensures OccursAt(s[..m], sep, j)
  {
    assert s[..m][j..j + |sep|] == s[j..j + |sep|];
  }

  /**
   * `Split` is the only list of pieces with its contract: any pieces that
   * join back to `s`, hold no separator, and each end at the leftmost
   * occurrence are exactly `Split(s, sep)`.
   */
  lemma {:induction false} SplitUnique(s: string, sep: string, parts: seq<string>)
    requires |sep| > 0 && |parts| >= 1 && Join(parts, sep) == s
    requires forall i :: 0 <= i < |parts| ==> Free(parts[i], sep)
    requires forall i :: 0 <= i < |parts| - 1 ==> EndsAtFirst(parts[i], sep)
    ensures parts == Split(s, sep)
    decreases |parts|
  {
    var p := parts[0];
    if |parts| == 1 {
      assert Free(s, sep);
    } else {
      var t := Join(parts[1..], sep);
      JoinCons(p, parts[1..], sep);
      assert parts == [p] + parts[1..];
      assert s == p + sep + t;
      assert s[|p|..|p| + |sep|] == sep;
      assert s[..|p| + |sep|] == p + sep;
      assert OccursAt(s, sep, |p|);
      assert EndsAtFirst(p, sep);
      forall j: nat | j < |p| ensures !OccursAt(s, sep, j) {
        if OccursAt(s, sep, j) {
          OccursInTake(s, sep, |p| + |sep|, j);
        }
      }
      assert IndexOf(s, sep) == Some(|p|);
      assert s[|p| + |sep|..] == t;
      SplitUnique(t, sep, parts[1..]);
    }
  }

  /** No character of `sep` appears in `s`. */
  ghost predicate AvoidsChars(s: string, sep: string)
  {
    forall c :: c in sep ==> c !in s
  }

  /** The first occurrence of `sep` in `p + sep + t`, when `p` avoids the characters of `sep`, is right after `p`. */
  lemma IndexOfAfterPrefix(p: string, sep: string, t: string)
    requires |sep| > 0 && AvoidsChars(p, sep)
    ensures IndexOf(p + sep + t, sep) == Some(|p|)
  {
    var s := p + sep + t;
    assert s[|p|..|p| + |sep|] == sep;
    assert OccursAt(s, sep, |p|);
    forall k: nat | k < |p| ensures !OccursAt(s, sep, k) {
      assert s[k] == p[k] && p[k] in p && sep[0] in sep;
      if k + |sep| <= |s| {
        assert s[k..k + |sep|][0] != sep[0];
      }
    }
  }

  /** Splitting what `Join` built gives back the parts, when no part uses a separator character. */
  lemma {:induction false} SplitJoin(parts: seq<string>, sep: string)
    requires |sep| > 0 && |parts| >= 1
    requires forall i :: 0 <= i < |parts| ==> AvoidsChars(parts[i], sep)
    ensures Split(Join(parts, sep), sep) == parts
    decreases |parts|
  {
    var p := parts[0];
    if |parts| == 1 {
      assert Free(p, sep) by {
        forall k: nat ensures !OccursAt(p, sep, k) {
          AvoidingIsFree(p, sep, k);
        }
      }
      assert IndexOf(p, sep) == None;
    } else {
      var t := Join(parts[1..], sep);
      IndexOfAfterPrefix(p, sep, t);
      assert (p + sep + t)[|p| + |sep|..] == t;
      SplitJoin(parts[1..], sep);
      assert parts == [p] + parts[1..];
    }
  }

  // ---------------------------------------------------------------------
  // Decimal text of a number

  predicate IsDecimal(s: string)
  {
    forall i :: 0 <= i < |s| ==> '0' <= s[i] <= '9'
  }

  function DigitChar(d: nat): (c: char)
    requires d < 10
  {
    (d + '0' as int) as char
  }

  /** `n.toString()` for a natural number: decimal digits, no leading zero. */
  function NatToDecimal(n: nat): (s: string)
    ensures |s| >= 1 && IsDecimal(s)
    ensures s[0] == '0' ==> n == 0
    decreases n
  {
    if n < 10 then [DigitChar(n)] else NatToDecimal(n / 10) + [DigitChar(n % 10)]
  }

  /** The number a string of decimal digits denotes. */
  function DecimalValue(s: string): nat
    requires IsDecimal(s)
    decreases |s|
  {
    if |s| == 0 then 0
    else 10 * DecimalValue(s[..|s| - 1]) + (s[|s| - 1] as int - '0' as int)
  }

  function Pow10(k: nat): (p: nat)
    ensures p >= 1
  {
    if k == 0 then 1 else 10 * Pow10(k - 1)
  }

  /** Reading back the decimal text of `n` gives `n`. */
  lemma {:induction false} DecimalRoundTrip(n: nat)
    ensures DecimalValue(NatToDecimal(n)) == n
    decreases n
  {
    var s := NatToDecimal(n);
    if n >= 10 {
      DecimalRoundTrip(n / 10);
      assert s[..|s| - 1] == NatToDecimal(n / 10);
    }
  }

  /** A number with `k` significant digits is written with exactly `k` characters. */
  lemma {:induction false} DecimalLength(n: nat, k: nat)
    requires k >= 1 && Pow10(k - 1) <= n < Pow10(k)
    ensures |NatToDecimal(n)| == k
    decreases k
  {
    if k > 1 {
      assert n / 10 >= Pow10(k - 2);
      DecimalLength(n / 10, k - 1);
    }
  }
}
