/** The Python string built-ins the three scripts rely on: `str.replace` with
    no count (output file names), `str.strip` with no argument (OCR text) and
    `str` of an integer (the scale factor in a file name, page numbers in the
    CSV table). */
module PyStr {

  // ---------------------------------------------------------------------------
  // str.replace(pat, rep)
  // ---------------------------------------------------------------------------

  /** `pat` occurs in `s` starting at index `i`. */
  predicate OccursAt(s: string, pat: string, i: nat)
  {
    i + |pat| <= |s| && s[i..i + |pat|] == pat
  }

  predicate Occurs(s: string, pat: string)
  {
    exists i: nat | i <= |s| :: OccursAt(s, pat, i)
  }

  /** `s.replace(pat, rep)`: scans `s` from the left and replaces every
      non-overlapping occurrence of `pat` by `rep`. A replacement at least as
      long as the pattern never shortens the string. */
  function ReplaceAll(s: string, pat: string, rep: string): (r: string)
    requires pat != []
    ensures |rep| >= |pat| ==> |r| >= |s|
    decreases |s|
  {
    if |s| < |pat| then s
    else if s[..|pat|] == pat then rep + ReplaceAll(s[|pat|..], pat, rep)
    else [s[0]] + ReplaceAll(s[1..], pat, rep)
  }

  /** An occurrence that does not start at index 0 is an occurrence in the tail. */
  lemma OccursInTail(s: string, pat: string, i: nat)
    requires 0 < i && OccursAt(s, pat, i)
    ensures OccursAt(s[1..], pat, i - 1)
  {
    assert s[1..][i - 1..i - 1 + |pat|] == s[i..i + |pat|];
  }

  lemma NoOccurrenceInTail(s: string, pat: string)
    requires s != [] && !Occurs(s, pat)
    ensures !Occurs(s[1..], pat)
  {
    forall i: nat | OccursAt(s[1..], pat, i)
      ensures OccursAt(s, pat, i + 1)
    {
      assert s[1..][i..i + |pat|] == s[i + 1..i + 1 + |pat|];
    }
  }

  /** Replacing a pattern that does not occur leaves the string as it is. */
  lemma {:induction false} ReplaceWithoutOccurrence(s: string, pat: string, rep: string)
    requires pat != [] && !Occurs(s, pat)
    ensures ReplaceAll(s, pat, rep) == s
    decreases |s|
  {
    if |s| >= |pat| {
      assert !OccursAt(s, pat, 0);
      NoOccurrenceInTail(s, pat);
      ReplaceWithoutOccurrence(s[1..], pat, rep);
      assert [s[0]] + s[1..] == s;
    }
  }

  /** A replacement strictly longer than the pattern lengthens every string
      in which the pattern occurs. */
  lemma {:induction false} ReplaceLength(s: string, pat: string, rep: string)
    requires pat != [] && |rep| > |pat|
    ensures Occurs(s, pat) ==> |ReplaceAll(s, pat, rep)| > |s|
    decreases |s|
  {
    if |s| >= |pat| {
      if s[..|pat|] == pat {
        ReplaceLength(s[|pat|..], pat, rep);
      } else {
        ReplaceLength(s[1..], pat, rep);
        if Occurs(s, pat) {
          var i: nat :| OccursAt(s, pat, i);
          assert i != 0;
          OccursInTail(s, pat, i);
        }
      }
    } else {
      assert !Occurs(s, pat);
    }
  }

  /** With a replacement longer than the pattern, the result equals the input
      exactly when the pattern does not occur. */
  lemma ReplaceUnchangedIff(s: string, pat: string, rep: string)
    requires pat != [] && |rep| > |pat|
    ensures ReplaceAll(s, pat, rep) == s <==> !Occurs(s, pat)
  {
    ReplaceLength(s, pat, rep);
    if !Occurs(s, pat) {
      ReplaceWithoutOccurrence(s, pat, rep);
    }
  }

  /** No proper non-empty prefix of `pat` is also a suffix of it, so two
      occurrences of `pat` can never overlap. */
  predicate Borderless(pat: string)
  {
    forall k :: 0 < k < |pat| ==> pat[..k] != pat[|pat| - k..]
  }

  /** A path that mentions the pattern only at its very end: exactly that last
      occurrence is replaced. */
  lemma {:induction false} ReplaceAtEnd(stem: string, pat: string, rep: string)
    requires pat != [] && Borderless(pat) && !Occurs(stem, pat)
    ensures ReplaceAll(stem + pat, pat, rep) == stem + rep
    decreases |stem|
  {
    var s := stem + pat;
    if stem == [] {
      assert s == pat && s[|pat|..] == [];
    } else {
      assert s[..|pat|] != pat by {
        if |stem| >= |pat| {
          assert !OccursAt(stem, pat, 0);
          assert s[..|pat|] == stem[..|pat|];
        } else {
          var j := |stem|;
          var k := |pat| - j;
          assert pat[..k] != pat[|pat| - k..];
          assert s[..|pat|][j..] == pat[..k];
          assert pat[j..] == pat[|pat| - k..];
        }
      }
      NoOccurrenceInTail(stem, pat);
      ReplaceAtEnd(stem[1..], pat, rep);
      assert s[1..] == stem[1..] + pat;
      assert [stem[0]] + (stem[1..] + rep) == stem + rep;
    }
  }

  /** The extension both scripts rewrite. */
  const PdfExt: string := ".pdf"

  lemma PdfExtBorderless()
    ensures Borderless(PdfExt)
  {
    forall k | 0 < k < |PdfExt|
      ensures PdfExt[..k] != PdfExt[|PdfExt| - k..]
    {
      assert PdfExt[..k][0] == '.';
      assert PdfExt[|PdfExt| - k..][0] == PdfExt[|PdfExt| - k] != '.';
    }
  }

  // ---------------------------------------------------------------------------
  // str.strip()
  // ---------------------------------------------------------------------------

  /** The characters for which Python's `str.isspace` holds, which are the
      ones `str.strip()` removes. */
  predicate IsSpace(c: char)
  {
    c == ' ' || ('\t' <= c <= '\r') || ('\U{1C}' <= c <= '\U{1F}')
    || c == '\U{85}' || c == '\U{A0}' || c == '\U{1680}'
    || ('\U{2000}' <= c <= '\U{200A}') || c == '\U{2028}' || c == '\U{2029}'
    || c == '\U{202F}' || c == '\U{205F}' || c == '\U{3000}'
  }

  predicate AllSpace(s: string)
  {
    forall i :: 0 <= i < |s| ==> IsSpace(s[i])
  }

  /** `s.lstrip()`: the suffix left after dropping the leading whitespace. */
  function StripStart(s: string): (r: string)
    ensures |r| <= |s| && r == s[|s| - |r|..]
    ensures AllSpace(s[..|s| - |r|])
    ensures r == [] || !IsSpace(r[0])
  {
    if s != [] && IsSpace(s[0]) then
      var r := StripStart(s[1..]);
      assert s[..|s| - |r|] == [s[0]] + s[1..][..|s[1..]| - |r|];
      r
    else s
  }

  /** `s.rstrip()`: the prefix left after dropping the trailing whitespace. */
  function StripEnd(s: string): (r: string)
    ensures |r| <= |s| && r == s[..|r|]
    ensures AllSpace(s[|r|..])
    ensures r == [] || !IsSpace(r[|r| - 1])
  {
    if s != [] && IsSpace(s[|s| - 1]) then
      var r := StripEnd(s[..|s| - 1]);
      assert s[|r|..] == s[..|s| - 1][|r|..] + [s[|s| - 1]];
      r
    else s
  }

  /** `s.strip()`: neither end of the result is whitespace. */
  function Strip(s: string): (r: string)
    ensures |r| <= |s|
    ensures r == [] || (!IsSpace(r[0]) && !IsSpace(r[|r| - 1]))
  {
    StripEnd(StripStart(s))
  }

  /** The stripped text is a contiguous piece of the input, and everything cut
      off on either side is whitespace. */
  lemma StripSlice(s: string) returns (i: nat, j: nat)
    ensures i <= j <= |s| && Strip(s) == s[i..j]
    ensures AllSpace(s[..i]) && AllSpace(s[j..])
  {
    var t := StripStart(s);
    var r := StripEnd(t);
    i := |s| - |t|;
    j := i + |r|;
    assert s[j..] == t[|r|..];
  }

  lemma StripIdempotent(s: string)
    ensures Strip(Strip(s)) == Strip(s)
  {
    var r := Strip(s);
    assert StripStart(r) == r;
    assert StripEnd(r) == r;
  }

  /** A text made of whitespace only strips to the empty string. */
  lemma {:induction false} StripAllSpace(s: string)
    requires AllSpace(s)
    ensures Strip(s) == []
    decreases |s|
  {
    if s != [] {
      assert AllSpace(s[1..]);
      StripAllSpace(s[1..]);
    }
  }

  // ---------------------------------------------------------------------------
  // str(n) for an integer n
  // ---------------------------------------------------------------------------

  predicate IsDigit(c: char)
  {
    '0' <= c <= '9'
  }

  function DigitChar(d: nat): (c: char)
    requires d < 10
    ensures IsDigit(c)
  {
    ('0' as int + d) as char
  }

  function DigitValue(c: char): int
  {
    c as int - '0' as int
  }

  /** The decimal digits of `n`, without leading zeros. */
  function NatToDecimal(n: nat): (r: string)
    ensures r != []
    ensures forall i :: 0 <= i < |r| ==> IsDigit(r[i])
    ensures r[0] == '0' ==> r == "0"
    decreases n
  {
    if n < 10 then [DigitChar(n)] else NatToDecimal(n / 10) + [DigitChar(n % 10)]
  }

  /** `str(i)`: a minus sign in front of the digits of a negative number. */
  function IntToDecimal(i: int): (r: string)
    ensures r != [] && (r[0] == '-' <==> i < 0)
    ensures forall k :: (if i < 0 then 1 else 0) <= k < |r| ==> IsDigit(r[k])
  {
    if i < 0 then "-" + NatToDecimal(-i) else NatToDecimal(i)
  }

  /** The number a string of decimal digits denotes; the reading `int(s)`
      gives back. */
  function DecimalValue(s: string): int
  {
    if s == [] then 0 else 10 * DecimalValue(s[..|s| - 1]) + DigitValue(s[|s| - 1])
  }

  function SignedDecimalValue(s: string): int
  {
    if s != [] && s[0] == '-' then -DecimalValue(s[1..]) else DecimalValue(s)
  }

  lemma {:induction false} NatDecimalRoundTrip(n: nat)
    ensures DecimalValue(NatToDecimal(n)) == n
    decreases n
  {
    if n >= 10 {
      var r := NatToDecimal(n);
      assert r[..|r| - 1] == NatToDecimal(n / 10);
      NatDecimalRoundTrip(n / 10);
    }
  }

  /** Reading back what `str` writes gives the integer again. */
  lemma IntDecimalRoundTrip(i: int)
    ensures SignedDecimalValue(IntToDecimal(i)) == i
  {
    if i < 0 {
      var d := NatToDecimal(-i);
      assert ("-" + d)[1..] == d;
      NatDecimalRoundTrip(-i);
    } else {
      NatDecimalRoundTrip(i);
    }
  }
}
