/** The JavaScript string and array operations that the filename rewrite
    relies on, over strings of Unicode scalar values:
    `String.prototype.split` with a one-character separator,
    `Array.prototype.join`, the first-occurrence search behind
    `String.prototype.replace` with a string pattern, and the decimal text
    a template literal gives a non-negative integer. */
module StringOps {
  import opened Optional

  // ---------------------------------------------------------------------
  // split and join
  // ---------------------------------------------------------------------

  /** `s.split(sep)`: the pieces of `s` between occurrences of `sep`, in
      order. There is always at least one piece (`"".split(".")` is
      `[""]`), and no piece contains the separator. */
  function Split(s: string, sep: char): (parts: seq<string>)
    ensures |parts| >= 1
    ensures forall i :: 0 <= i < |parts| ==> sep !in parts[i]
    decreases |s|
  {
    if |s| == 0 then [""]
    else
      var rest := Split(s[1..], sep);
      if s[0] == sep then [""] + rest
      else [[s[0]] + rest[0]] + rest[1..]
  }

  /** `parts.join(sep)`: the pieces with one separator between neighbours;
      an empty array joins to the empty string. */
  function Join(parts: seq<string>, sep: char): string
    decreases |parts|
  {
    if |parts| == 0 then ""
    else if |parts| == 1 then parts[0]
    else parts[0] + [sep] + Join(parts[1..], sep)
  }

  /** Splitting and then joining with the same separator gives back the
      original string. */
  lemma {:induction false} JoinSplit(s: string, sep: char)
    ensures Join(Split(s, sep), sep) == s
    decreases |s|
  {
    if |s| > 0 {
      var rest := Split(s[1..], sep);
      JoinSplit(s[1..], sep);
      if s[0] == sep {
        assert Split(s, sep) == [""] + rest;
        assert ([""] + rest)[1..] == rest;
      } else {
        var parts := [[s[0]] + rest[0]] + rest[1..];
        assert Split(s, sep) == parts;
        if |rest| == 1 {
          assert Join(parts, sep) == [s[0]] + rest[0];
        } else {
          assert parts[1..] == rest[1..];
          assert Join(rest, sep) == rest[0] + [sep] + Join(rest[1..], sep);
          assert Join(parts, sep) == [s[0]] + rest[0] + [sep] + Join(rest[1..], sep);
        }
      }
    }
  }

  /** A string without the separator splits into itself alone. */
  lemma {:induction false} SplitWithoutSeparator(s: string, sep: char)
    requires sep !in s
    ensures Split(s, sep) == [s]
    decreases |s|
  {
    if |s| > 0 {
      assert sep !in s[1..];
      SplitWithoutSeparator(s[1..], sep);
      assert [s[0]] + s[1..] == s;
    }
  }

  /** Splitting `x + [sep] + y`, where `x` has no separator, gives `x`
      followed by the pieces of `y`. */
  lemma {:induction false} SplitAtFirstSeparator(x: string, y: string, sep: char)
    requires sep !in x
    ensures Split(x + [sep] + y, sep) == [x] + Split(y, sep)
    decreases |x|
  {
    var s := x + [sep] + y;
    if |x| == 0 {
      assert s[1..] == y;
    } else {
      assert s[1..] == x[1..] + [sep] + y;
      assert sep !in x[1..];
      SplitAtFirstSeparator(x[1..], y, sep);
      assert [x[0]] + x[1..] == x;
    }
  }

  /** Joining pieces that contain no separator and splitting the result
      again gives back the same pieces: split undoes join. */
  lemma {:induction false} SplitJoin(parts: seq<string>, sep: char)
    requires |parts| >= 1
    requires forall i :: 0 <= i < |parts| ==> sep !in parts[i]
    ensures Split(Join(parts, sep), sep) == parts
    decreases |parts|
  {
    if |parts| == 1 {
      SplitWithoutSeparator(parts[0], sep);
    } else {
      SplitJoin(parts[1..], sep);
      SplitAtFirstSeparator(parts[0], Join(parts[1..], sep), sep);
      assert [parts[0]] + parts[1..] == parts;
    }
  }

  /** Pushing one more piece onto an array and joining adds that piece at
      the end, after a separator unless the array was empty. */
  lemma {:induction false} JoinSnoc(parts: seq<string>, last: string, sep: char)
    ensures Join(parts + [last], sep)
            == (if parts == [] then "" else Join(parts, sep) + [sep]) + last
    decreases |parts|
  {
    if parts == [] {
      assert parts + [last] == [last];
    } else if |parts| > 1 {
      JoinSnoc(parts[1..], last, sep);
      assert (parts + [last])[1..] == parts[1..] + [last];
    }
  }

  /** Every piece of a split is made of characters of the split string:
      a character absent from `s` is absent from each piece. */
  lemma {:induction false} SplitPiecesLack(s: string, sep: char, c: char)
    requires c !in s
    ensures forall i :: 0 <= i < |Split(s, sep)| ==> c !in Split(s, sep)[i]
    decreases |s|
  {
    if |s| > 0 {
      assert c !in s[1..];
      SplitPiecesLack(s[1..], sep, c);
    }
  }

  // ---------------------------------------------------------------------
  // first-occurrence search and removal
  // ---------------------------------------------------------------------

  /** `pat` occurs in `s` starting at position `i`. */
  predicate OccursAt(s: string, pat: string, i: nat) {
    i + |pat| <= |s| && s[i..i + |pat|] == pat
  }

  /** The least position at or after `from` where `pat` occurs in `s`. */
  function IndexOfFrom(s: string, pat: string, from: nat): (r: Option<nat>)
    ensures r.Some? ==> from <= r.value && OccursAt(s, pat, r.value)
    ensures r.Some? ==> forall j :: from <= j < r.value ==> !OccursAt(s, pat, j)
    ensures r.None? ==> forall j :: from <= j ==> !OccursAt(s, pat, j)
    decreases |s| - from
  {
    if from + |pat| > |s| then None
    else if s[from..from + |pat|] == pat then Some(from)
    else IndexOfFrom(s, pat, from + 1)
  }

  /** The position of the first occurrence of `pat` in `s`, if any (the
      empty pattern occurs at position 0). */
  function IndexOf(s: string, pat: string): (r: Option<nat>)
    ensures r.Some? ==> OccursAt(s, pat, r.value)
    ensures r.Some? ==> forall j :: 0 <= j < r.value ==> !OccursAt(s, pat, j)
    ensures r.None? ==> forall j :: 0 <= j ==> !OccursAt(s, pat, j)
  {
    IndexOfFrom(s, pat, 0)
  }

  /** `s.replace(pat, '')` with a string pattern: the first occurrence of
      `pat` is deleted; a string without `pat` comes back unchanged. */
  function RemoveFirst(s: string, pat: string): (r: string)
    ensures IndexOf(s, pat).None? ==> r == s
    ensures IndexOf(s, pat).Some? ==>
              var i := IndexOf(s, pat).value;
              i <= |r| && s == r[..i] + pat + r[i..]
  {
    match IndexOf(s, pat)
    case None => s
    case Some(i) =>
      assert s == s[..i] + s[i..i + |pat|] + s[i + |pat|..];
      s[..i] + s[i + |pat|..]
  }

  // ---------------------------------------------------------------------
  // subsequences
  // ---------------------------------------------------------------------

  /** `idx` lists, in increasing order, positions of `b` that spell `a`. */
  ghost predicate Embeds(idx: seq<nat>, a: string, b: string) {
    && |idx| == |a|
    && (forall i :: 0 <= i < |idx| ==> idx[i] < |b| && b[idx[i]] == a[i])
    && (forall i, j :: 0 <= i < j < |idx| ==> idx[i] < idx[j])
  }

  /** `a` is obtained from `b` by deleting characters: every character of
      `a` comes from `b`, in the same relative order. */
  ghost predicate IsSubsequence(a: string, b: string) {
    exists idx :: Embeds(idx, a, b)
  }

  lemma SubsequenceReflexive(s: string)
    ensures IsSubsequence(s, s)
  {
    var idx: seq<nat> := seq(|s|, i requires 0 <= i < |s| => i);
    assert Embeds(idx, s, s);
  }

  lemma SubsequenceTransitive(a: string, b: string, c: string)
    requires IsSubsequence(a, b) && IsSubsequence(b, c)
    ensures IsSubsequence(a, c)
  {
    var f :| Embeds(f, a, b);
    var g :| Embeds(g, b, c);
    var h: seq<nat> := seq(|a|, i requires 0 <= i < |a| && f[i] < |g| => g[f[i]]);
    forall i, j | 0 <= i < j < |h|
      ensures h[i] < h[j]
    {
      assert f[i] < f[j];
    }
    assert Embeds(h, a, c);
  }

  /** Deleting one block of characters leaves a subsequence. */
  lemma DeleteBlockIsSubsequence(s: string, i: nat, k: nat)
    requires i + k <= |s|
    ensures IsSubsequence(s[..i] + s[i + k..], s)
  {
    var r := s[..i] + s[i + k..];
    var idx: seq<nat> := seq(|r|, j requires 0 <= j < |r| => if j < i then j else j + k);
    assert Embeds(idx, r, s);
  }

  /** Deleting the first occurrence of a pattern leaves a subsequence. */
  lemma RemoveFirstIsSubsequence(s: string, pat: string)
    ensures IsSubsequence(RemoveFirst(s, pat), s)
  {
    match IndexOf(s, pat)
    case None => SubsequenceReflexive(s);
    case Some(i) => DeleteBlockIsSubsequence(s, i, |pat|);
  }

  /** A character missing from `b` is missing from every subsequence of it. */
  lemma SubsequenceLacks(a: string, b: string, c: char)
    requires IsSubsequence(a, b) && c !in b
    ensures c !in a
  {
    var idx :| Embeds(idx, a, b);
    forall i | 0 <= i < |a|
      ensures a[i] != c
    {
      assert b[idx[i]] == a[i];
    }
  }

  // ---------------------------------------------------------------------
  // decimal text of a number, as a template literal renders it
  // ---------------------------------------------------------------------

  predicate IsDigit(c: char) {
    '0' <= c <= '9'
  }

  function DigitChar(d: nat): (c: char)
    requires d < 10
    ensures IsDigit(c)
  {
    ('0' as int + d) as char
  }

  function DigitValue(c: char): nat
    requires IsDigit(c)
  {
    c as int - '0' as int
  }

  /** `${n}` for a non-negative integer `n`: its decimal digits, most
      significant first, without leading zeros. */
  function DecimalText(n: nat): (s: string)
    ensures |s| >= 1
    ensures forall i :: 0 <= i < |s| ==> IsDigit(s[i])
    decreases n
  {
    if n < 10 then [DigitChar(n)] else DecimalText(n / 10) + [DigitChar(n % 10)]
  }

  /** The number a string of decimal digits denotes. */
  function ParseDecimal(s: string): nat
    requires forall i :: 0 <= i < |s| ==> IsDigit(s[i])
    decreases |s|
  {
    if |s| == 0 then 0 else ParseDecimal(s[..|s| - 1]) * 10 + DigitValue(s[|s| - 1])
  }

  /** Reading the decimal text back gives the number: the text is exact. */
  lemma {:induction false} ParseDecimalText(n: nat)
    ensures ParseDecimal(DecimalText(n)) == n
    decreases n
  {
    var s := DecimalText(n);
    if n >= 10 {
      ParseDecimalText(n / 10);
      assert s[..|s| - 1] == DecimalText(n / 10);
    }
  }

  /** A number from 1000 to 9999 is written with exactly four digits, the
      first of them not zero. */
  lemma FourDigitText(n: nat)
    requires 1000 <= n <= 9999
    ensures |DecimalText(n)| == 4 && DecimalText(n)[0] != '0'
  {
    var n3 := n / 1000;
    assert DecimalText(n / 1000) == [DigitChar(n3)];
    assert |DecimalText(n / 100)| == 2 && DecimalText(n / 100)[0] == DigitChar(n3);
    assert |DecimalText(n / 10)| == 3 && DecimalText(n / 10)[0] == DigitChar(n3);
  }
}
