/**
 * Text helpers shared by the orchestration model: substring search, ASCII
 * lower-casing (Python's str.lower() on the characters the engine uses),
 * str.split / str.join on a one-character separator, and str(int) for natural
 * numbers.
 */
module Strings {

  /** `k` occurs in `s` starting at index `i`. */
  predicate OccursAt(s: string, k: string, i: int)
  {
    0 <= i <= |s| - |k| && s[i..i + |k|] == k
  }

  /** Python's `k in s` for strings. */
  predicate Contains(s: string, k: string)
  {
    exists i :: 0 <= i <= |s| - |k| && OccursAt(s, k, i)
  }

  // ---------------------------------------------------------------------------
  // Lower-casing

  function LowerChar(c: char): char
  {
    if 'A' <= c <= 'Z' then (c as int + 32) as char else c
  }

  /** str.lower() restricted to ASCII letters. */
  function Lower(s: string): (r: string)
    ensures |r| == |s|
    ensures forall i :: 0 <= i < |s| ==> r[i] == LowerChar(s[i])
  {
    seq(|s|, i requires 0 <= i < |s| => LowerChar(s[i]))
  }

  lemma LowerConcat(a: string, b: string)
    ensures Lower(a + b) == Lower(a) + Lower(b)
  {
  }

  predicate NoUpper(s: string)
  {
    forall i :: 0 <= i < |s| ==> !('A' <= s[i] <= 'Z')
  }

  lemma LowerOfLower(s: string)
    requires NoUpper(s)
    ensures Lower(s) == s
  {
  }

  /** A lower-case letter absent from `s` in both cases is absent from Lower(s). */
  lemma LowerKeepsAbsent(s: string, c: char)
    requires 'a' <= c <= 'z'
    requires c !in s && (c as int - 32) as char !in s
    ensures c !in Lower(s)
  {
    forall i | 0 <= i < |s|
      ensures Lower(s)[i] != c
    {
      assert s[i] != c && s[i] != (c as int - 32) as char;
    }
  }

  // ---------------------------------------------------------------------------
  // Reasoning about the absence of a keyword

  lemma OccurrenceIsContained(s: string, k: string, i: int)
    requires OccursAt(s, k, i)
    ensures Contains(s, k)
  {
  }

  /** An occurrence, checked character by character. */
  lemma {:induction false} OccursByChars(s: string, k: string, j: int)
    requires 0 <= j <= |s| - |k|
    requires forall t :: 0 <= t < |k| ==> s[j + t] == k[t]
    ensures OccursAt(s, k, j)
  {
    var found := s[j..j + |k|];
    forall t | 0 <= t < |k| ensures found[t] == k[t] {
      assert s[j + t] == k[t];
    }
  }

  /** A keyword occurring inside a part occurs in the whole. */
  lemma ContainsInFix(p: string, s: string, q: string, k: string)
    requires Contains(s, k)
    ensures Contains(p + s + q, k)
  {
    var i :| 0 <= i <= |s| - |k| && OccursAt(s, k, i);
    assert (p + s + q)[|p| + i..|p| + i + |k|] == s[i..i + |k|];
    OccurrenceIsContained(p + s + q, k, |p| + i);
  }

  /** If some character of `k` is missing from `s`, then `k` does not occur in `s`. */
  lemma AbsentChar(s: string, k: string, j: int)
    requires 0 <= j < |k| && k[j] !in s
    ensures !Contains(s, k)
  {
    forall i | 0 <= i <= |s| - |k|
      ensures !OccursAt(s, k, i)
    {
      assert s[i..i + |k|][j] == s[i + j] != k[j];
    }
  }

  /**
   * Gluing two keyword-free strings gives a keyword-free string when the seam
   * is guarded: the last character of `a` or the first of `b` is not a
   * character of `k`, so no occurrence can straddle the seam.
   */
  lemma Glue(a: string, b: string, k: string)
    requires |k| > 0 && !Contains(a, k) && !Contains(b, k)
    requires (|a| > 0 && a[|a| - 1] !in k) || (|b| > 0 && b[0] !in k)
    ensures !Contains(a + b, k)
  {
    var s := a + b;
    forall i | 0 <= i <= |s| - |k|
      ensures !OccursAt(s, k, i)
    {
      if i + |k| <= |a| {
        assert a[i..i + |k|] == s[i..i + |k|];
        assert !OccursAt(a, k, i);
      } else if i >= |a| {
        assert b[i - |a|..i - |a| + |k|] == s[i..i + |k|];
        assert !OccursAt(b, k, i - |a|);
      } else if |a| > 0 && a[|a| - 1] !in k {
        assert s[i..i + |k|][|a| - 1 - i] == a[|a| - 1];
      } else {
        assert s[i..i + |k|][|a| - i] == b[0];
      }
    }
  }

  /** A character other than the keyword's first may be put in front. */
  lemma GuardFront(c: char, s: string, k: string)
    requires |k| > 0 && c != k[0] && !Contains(s, k)
    ensures !Contains([c] + s, k)
  {
    var t := [c] + s;
    forall i | 0 <= i <= |t| - |k|
      ensures !OccursAt(t, k, i)
    {
      if i == 0 {
        assert t[i..i + |k|][0] == c;
      } else {
        assert s[i - 1..i - 1 + |k|] == t[i..i + |k|];
        assert !OccursAt(s, k, i - 1);
      }
    }
  }

  /** A character other than the keyword's last may be put behind. */
  lemma GuardBack(s: string, c: char, k: string)
    requires |k| > 0 && c != k[|k| - 1] && !Contains(s, k)
    ensures !Contains(s + [c], k)
  {
    var t := s + [c];
    forall i | 0 <= i <= |t| - |k|
      ensures !OccursAt(t, k, i)
    {
      if i + |k| == |t| {
        assert t[i..i + |k|][|k| - 1] == c;
      } else {
        assert s[i..i + |k|] == t[i..i + |k|];
        assert !OccursAt(s, k, i);
      }
    }
  }

  /** A keyword occurring inside a longer keyword: where the longer occurs, so does the shorter. */
  lemma ContainsPart(s: string, k: string, part: string, j: int)
    requires OccursAt(k, part, j) && Contains(s, k)
    ensures Contains(s, part)
  {
    var i :| 0 <= i <= |s| - |k| && OccursAt(s, k, i);
    assert s[i..i + |k|] == k;
    var found, wanted := s[i + j..i + j + |part|], k[j..j + |part|];
    forall t | 0 <= t < |part| ensures found[t] == wanted[t] {
      assert s[i + j + t] == s[i..i + |k|][j + t];
    }
    assert found == wanted;
    OccurrenceIsContained(s, part, i + j);
  }

  // ---------------------------------------------------------------------------
  // An f-string as the concatenation of its pieces

  function Concat(parts: seq<string>): string
  {
    if parts == [] then [] else Concat(parts[..|parts| - 1]) + parts[|parts| - 1]
  }

  function LowerAll(parts: seq<string>): (r: seq<string>)
    ensures |r| == |parts|
    ensures forall i :: 0 <= i < |parts| ==> r[i] == Lower(parts[i])
  {
    seq(|parts|, i requires 0 <= i < |parts| => Lower(parts[i]))
  }

  lemma {:induction false} LowerOfConcat(parts: seq<string>)
    ensures Lower(Concat(parts)) == Concat(LowerAll(parts))
  {
    if parts != [] {
      var init := parts[..|parts| - 1];
      LowerOfConcat(init);
      assert LowerAll(parts)[..|parts| - 1] == LowerAll(init);
      LowerConcat(Concat(init), parts[|parts| - 1]);
    }
  }

  /** The seam before piece i cannot carry an occurrence of k. */
  predicate GuardedSeam(parts: seq<string>, k: string, i: int)
    requires 0 < i < |parts|
  {
    (|parts[i]| > 0 && parts[i][0] !in k) || (|parts[i - 1]| > 0 && parts[i - 1][|parts[i - 1]| - 1] !in k)
  }

  lemma {:induction false} ConcatLast(parts: seq<string>)
    requires |parts| > 0 && |parts[|parts| - 1]| > 0
    ensures |Concat(parts)| > 0
    ensures Concat(parts)[|Concat(parts)| - 1] == parts[|parts| - 1][|parts[|parts| - 1]| - 1]
  {
  }

  /** The first character of a concatenation whose first piece is not empty. */
  lemma {:induction false} SeqFirst(parts: seq<string>)
    requires |parts| > 0 && |parts[0]| > 0
    ensures |Concat(parts)| > 0 && Concat(parts)[0] == parts[0][0]
  {
    if |parts| > 1 {
      var init := parts[..|parts| - 1];
      assert init[0] == parts[0];
      SeqFirst(init);
    } else {
      assert Concat(parts) == Concat([]) + parts[0];
    }
  }

  /**
   * Pieces free of `k`, glued along seams where one side is a character not in
   * `k`, give a string free of `k`.
   */
  lemma {:induction false} GlueAll(parts: seq<string>, k: string)
    requires |k| > 0
    requires forall i :: 0 <= i < |parts| ==> !Contains(parts[i], k)
    requires forall i :: 0 < i < |parts| ==> GuardedSeam(parts, k, i)
    ensures !Contains(Concat(parts), k)
  {
    if parts == [] {
      assert Concat(parts) == [];
      assert !OccursAt([], k, 0);
    } else {
      var init := parts[..|parts| - 1];
      var last := parts[|parts| - 1];
      assert forall i :: 0 < i < |init| ==> GuardedSeam(init, k, i) by {
        forall i | 0 < i < |init| ensures GuardedSeam(init, k, i) {
          assert GuardedSeam(parts, k, i);
        }
      }
      GlueAll(init, k);
      if |init| > 0 {
        assert GuardedSeam(parts, k, |parts| - 1);
        if |last| > 0 && last[0] !in k {
        } else {
          ConcatLast(init);
        }
        Glue(Concat(init), last, k);
      } else {
        assert init == [] && Concat(init) == [];
        assert Concat(parts) == [] + last && parts[0] == last;
        assert !Contains(parts[0], k);
        assert Concat(parts) == last;
      }
    }
  }

  /** A character in none of the pieces is not in their concatenation. */
  lemma {:induction false} CharNotInConcat(parts: seq<string>, c: char)
    requires forall i :: 0 <= i < |parts| ==> c !in parts[i]
    ensures c !in Concat(parts)
  {
    if parts != [] {
      CharNotInConcat(parts[..|parts| - 1], c);
    }
  }

  /** A keyword occurring in one piece occurs in the concatenation. */
  lemma {:induction false} ContainsPiece(parts: seq<string>, i: int, k: string)
    requires 0 <= i < |parts| && Contains(parts[i], k)
    ensures Contains(Concat(parts), k)
  {
    var init := parts[..|parts| - 1];
    if i == |parts| - 1 {
      ContainsInFix(Concat(init), parts[i], [], k);
      assert Concat(init) + parts[i] + [] == Concat(parts);
    } else {
      assert init[i] == parts[i];
      ContainsPiece(init, i, k);
      ContainsInFix([], Concat(init), parts[|parts| - 1], k);
      assert [] + Concat(init) + parts[|parts| - 1] == Concat(parts);
    }
  }

  /** No index of `s` holds `c`. */
  predicate Avoids(s: string, c: char)
  {
    forall i :: 0 <= i < |s| ==> s[i] != c
  }

  /** A string free of both cases of a letter of `k` lowers to a string free of `k`. */
  lemma LowerAbsent(s: string, k: string, j: int, lo: char, up: char)
    requires 0 <= j < |k| && k[j] == lo && 'a' <= lo <= 'z' && up as int == lo as int - 32
    requires Avoids(s, lo) && Avoids(s, up)
    ensures !Contains(Lower(s), k)
  {
    LowerKeepsAbsent(s, lo);
    AbsentChar(Lower(s), k, j);
  }

  // ---------------------------------------------------------------------------
  // str.split(c) and c.join(parts) for a one-character separator

  /** Python's `s.split(c)`: always at least one part, none containing `c`. */
  function Split(s: string, c: char): (parts: seq<string>)
    ensures |parts| >= 1
    ensures forall p :: p in parts ==> c !in p
  {
    if s == [] then [[]]
    else
      var rest := Split(s[1..], c);
      if s[0] == c then [[]] + rest
      else [[s[0]] + rest[0]] + rest[1..]
  }

  /** Python's `c.join(parts)`. */
  function Join(c: char, parts: seq<string>): string
  {
    if parts == [] then []
    else if |parts| == 1 then parts[0]
    else parts[0] + [c] + Join(c, parts[1..])
  }

  lemma {:induction false} SplitNoSeparator(s: string, c: char)
    requires c !in s
    ensures Split(s, c) == [s]
  {
    if s != [] {
      SplitNoSeparator(s[1..], c);
      assert [s[0]] + s[1..] == s;
    }
  }

  /** Splitting at an occurrence of the separator splits the two sides apart. */
  lemma {:induction false} SplitAround(a: string, b: string, c: char)
    ensures Split(a + [c] + b, c) == Split(a, c) + Split(b, c)
  {
    var s := a + [c] + b;
    if a == [] {
      assert s == [c] + b && s[1..] == b;
    } else {
      assert s[0] == a[0] && s[1..] == a[1..] + [c] + b;
      SplitAround(a[1..], b, c);
      var rest := Split(a[1..], c);
      var rb := Split(b, c);
      if a[0] == c {
        assert [[]] + (rest + rb) == ([[]] + rest) + rb;
      } else {
        assert (rest + rb)[0] == rest[0] && (rest + rb)[1..] == rest[1..] + rb;
        assert [[a[0]] + rest[0]] + (rest[1..] + rb) == ([[a[0]] + rest[0]] + rest[1..]) + rb;
      }
    }
  }

  lemma {:induction false} JoinSplit(s: string, c: char)
    ensures Join(c, Split(s, c)) == s
  {
    if s != [] {
      JoinSplit(s[1..], c);
      var rest := Split(s[1..], c);
      if s[0] == c {
        assert Split(s, c) == [[]] + rest;
        assert Join(c, Split(s, c)) == [] + [c] + Join(c, rest);
      } else if |rest| == 1 {
        assert Split(s, c) == [[s[0]] + rest[0]];
        assert [s[0]] + s[1..] == s;
      } else {
        assert Split(s, c) == [[s[0]] + rest[0]] + rest[1..];
        assert Join(c, rest) == rest[0] + [c] + Join(c, rest[1..]);
        assert Split(s, c)[1..] == rest[1..];
        assert [s[0]] + s[1..] == s;
      }
    }
  }

  /** Joining parts free of the separator and splitting again gives the parts back. */
  lemma {:induction false} SplitJoin(parts: seq<string>, c: char)
    requires |parts| >= 1
    requires forall p :: p in parts ==> c !in p
    ensures Split(Join(c, parts), c) == parts
  {
    if |parts| == 1 {
      SplitNoSeparator(parts[0], c);
    } else {
      SplitNoSeparator(parts[0], c);
      SplitJoin(parts[1..], c);
      SplitAround(parts[0], Join(c, parts[1..]), c);
      assert [parts[0]] + parts[1..] == parts;
    }
  }

  /** The index of the last occurrence of `c` in `s`, which must occur. */
  function LastIndexOf(s: string, c: char): (i: nat)
    requires c in s
    ensures i < |s| && s[i] == c && c !in s[i + 1..]
  {
    if s[|s| - 1] == c then |s| - 1
    else
      assert s[..|s| - 1] + [s[|s| - 1]] == s;
      LastIndexOf(s[..|s| - 1], c)
  }

  /** `c.join(s.split(c)[:-1])` is everything before the last `c`. */
  lemma {:induction false} DropLastPart(s: string, c: char)
    requires c in s
    ensures var parts := Split(s, c); Join(c, parts[..|parts| - 1]) == s[..LastIndexOf(s, c)]
  {
    var i := LastIndexOf(s, c);
    var a := s[..i];
    var b := s[i + 1..];
    assert s == a + [c] + b;
    SplitAround(a, b, c);
    SplitNoSeparator(b, c);
    var parts := Split(s, c);
    assert parts == Split(a, c) + [b];
    assert parts[..|parts| - 1] == Split(a, c);
    JoinSplit(a, c);
  }

  // ---------------------------------------------------------------------------
  // str(n) for a natural number

  function DigitChar(d: nat): char
    requires d < 10
  {
    ('0' as int + d) as char
  }

  /** Decimal rendering of a natural number, most significant digit first. */
  function NatToString(n: nat): (r: string)
    ensures |r| >= 1
  {
    if n < 10 then [DigitChar(n)] else NatToString(n / 10) + [DigitChar(n % 10)]
  }

  lemma {:induction false} NatToStringDigits(n: nat)
    ensures forall i :: 0 <= i < |NatToString(n)| ==> '0' <= NatToString(n)[i] <= '9'
  {
    if n >= 10 {
      NatToStringDigits(n / 10);
    }
  }

  function DigitValue(c: char): nat
  {
    if '0' <= c <= '9' then c as nat - '0' as nat else 0
  }

  /** The value a string of decimal digits denotes. */
  function ParseNat(s: string): nat
  {
    if s == [] then 0 else ParseNat(s[..|s| - 1]) * 10 + DigitValue(s[|s| - 1])
  }

  lemma {:induction false} NatToStringRoundTrip(n: nat)
    ensures ParseNat(NatToString(n)) == n
  {
    var r := NatToString(n);
    if n >= 10 {
      NatToStringRoundTrip(n / 10);
      assert r[..|r| - 1] == NatToString(n / 10);
    }
  }

  /** Digits hold no letter, so no keyword that starts with a letter occurs in str(n). */
  lemma NatToStringHasNoWord(n: nat, k: string)
    requires |k| > 0 && !('0' <= k[0] <= '9')
    ensures !Contains(NatToString(n), k)
  {
    NatToStringDigits(n);
    AbsentChar(NatToString(n), k, 0);
  }
}
