/** The text primitives the store's codec relies on: white-space trimming,
    splitting on a separator, and the decimal rendering and parsing of
    integers and booleans, each as the .NET runtime does it. */
module Text {
  import opened Wrappers
  import opened Ints

  /** `char.IsWhiteSpace`: the Unicode White_Space characters. */
  predicate IsWhiteSpace(c: char) {
    || '\t' <= c <= '\r'
    || c == ' '
    || c == '\U{85}'
    || c == '\U{A0}'
    || c == '\U{1680}'
    || '\U{2000}' <= c <= '\U{200A}'
    || c == '\U{2028}'
    || c == '\U{2029}'
    || c == '\U{202F}'
    || c == '\U{205F}'
    || c == '\U{3000}'
  }

  /** The notions of blank the runtime strips around text: `String.Trim`
      removes `char.IsWhiteSpace` characters, `bool.TryParse` also removes
      NUL, `int.TryParse` (`NumberStyles.Integer`) removes U+0009 to U+000D
      and the space, and after that allows a trailing run of NULs. */
  datatype Blanks = TrimBlanks | BoolBlanks | NumberBlanks | Nuls

  predicate IsBlank(c: char, blanks: Blanks) {
    match blanks
    case TrimBlanks => IsWhiteSpace(c)
    case BoolBlanks => c == '\0' || IsWhiteSpace(c)
    case NumberBlanks => '\t' <= c <= '\r' || c == ' '
    case Nuls => c == '\0'
  }

  /** Every character of `s` is blank. */
  ghost predicate AllBlank(s: string, blanks: Blanks) {
    forall i :: 0 <= i < |s| ==> IsBlank(s[i], blanks)
  }

  /** Removes the leading characters that are blank. */
  function TrimStart(s: string, blanks: Blanks): string
    decreases |s|
  {
    if |s| > 0 && IsBlank(s[0], blanks) then TrimStart(s[1..], blanks) else s
  }

  /** Removes the trailing characters that are blank. */
  function TrimEnd(s: string, blanks: Blanks): string
    decreases |s|
  {
    if |s| > 0 && IsBlank(s[|s| - 1], blanks) then TrimEnd(s[..|s| - 1], blanks) else s
  }

  /** `String.Trim` with the given notion of blank. */
  function Trim(s: string, blanks: Blanks): string {
    TrimEnd(TrimStart(s, blanks), blanks)
  }

  /** `TrimStart` removes a prefix of blanks and nothing more: what is left
      is a suffix of `s` that is empty or starts with a non-blank. */
  lemma {:induction false} TrimStartSpec(s: string, blanks: Blanks)
    ensures var t := TrimStart(s, blanks);
      && |t| <= |s| && t == s[|s| - |t|..]
      && (forall i :: 0 <= i < |s| - |t| ==> IsBlank(s[i], blanks))
      && (|t| > 0 ==> !IsBlank(t[0], blanks))
    decreases |s|
  {
    if |s| > 0 && IsBlank(s[0], blanks) {
      TrimStartSpec(s[1..], blanks);
      var t := TrimStart(s, blanks);
      forall i | 0 <= i < |s| - |t| ensures IsBlank(s[i], blanks) {
        if i > 0 {
          assert s[i] == s[1..][i - 1];
        }
      }
    }
  }

  /** `TrimEnd` removes a suffix of blanks and nothing more: what is left is
      a prefix of `s` that is empty or ends with a non-blank. */
  lemma {:induction false} TrimEndSpec(s: string, blanks: Blanks)
    ensures var t := TrimEnd(s, blanks);
      && |t| <= |s| && t == s[..|t|]
      && (forall i :: |t| <= i < |s| ==> IsBlank(s[i], blanks))
      && (|t| > 0 ==> !IsBlank(t[|t| - 1], blanks))
    decreases |s|
  {
    if |s| > 0 && IsBlank(s[|s| - 1], blanks) {
      var u := s[..|s| - 1];
      TrimEndSpec(u, blanks);
      var t := TrimEnd(s, blanks);
      forall i | |t| <= i < |s| ensures IsBlank(s[i], blanks) {
        if i < |s| - 1 {
          assert s[i] == u[i];
        }
      }
    }
  }

  /** `Trim` keeps the middle of `s` between a blank prefix and a blank
      suffix; the result starts and ends with a non-blank, and text that
      already does so is returned unchanged. */
  lemma TrimSpec(s: string, blanks: Blanks)
    ensures var t, a := Trim(s, blanks), |s| - |TrimStart(s, blanks)|;
      && 0 <= a <= |s| - |t| && t == s[a..a + |t|]
      && (forall i :: 0 <= i < a ==> IsBlank(s[i], blanks))
      && (forall i :: a + |t| <= i < |s| ==> IsBlank(s[i], blanks))
      && (|t| > 0 ==> !IsBlank(t[0], blanks) && !IsBlank(t[|t| - 1], blanks))
      && ((|s| == 0 || (!IsBlank(s[0], blanks) && !IsBlank(s[|s| - 1], blanks))) ==> t == s)
  {
    var u := TrimStart(s, blanks);
    TrimStartSpec(s, blanks);
    TrimEndSpec(u, blanks);
    var t := TrimEnd(u, blanks);
    var a := |s| - |u|;
    assert t == s[a..a + |t|];
    forall i | a + |t| <= i < |s| ensures IsBlank(s[i], blanks) {
      assert s[i] == u[i - a];
    }
    if |t| > 0 {
      assert t[0] == u[0];
    }
  }

  lemma {:induction false} TrimStartBlankPrefix(pre: string, s: string, blanks: Blanks)
    requires AllBlank(pre, blanks)
    ensures TrimStart(pre + s, blanks) == TrimStart(s, blanks)
    decreases |pre|
  {
    if |pre| > 0 {
      assert (pre + s)[0] == pre[0];
      assert (pre + s)[1..] == pre[1..] + s;
      TrimStartBlankPrefix(pre[1..], s, blanks);
    } else {
      assert pre + s == s;
    }
  }

  lemma {:induction false} TrimStartAppend(s: string, t: string, blanks: Blanks)
    ensures TrimStart(s + t, blanks) == if TrimStart(s, blanks) == [] then TrimStart(t, blanks) else TrimStart(s, blanks) + t
    decreases |s|
  {
    if |s| == 0 {
      assert s + t == t;
    } else if IsBlank(s[0], blanks) {
      assert (s + t)[1..] == s[1..] + t;
      TrimStartAppend(s[1..], t, blanks);
    }
  }

  lemma {:induction false} TrimEndBlankSuffix(s: string, post: string, blanks: Blanks)
    requires AllBlank(post, blanks)
    ensures TrimEnd(s + post, blanks) == TrimEnd(s, blanks)
    decreases |post|
  {
    var u := s + post;
    if |post| > 0 {
      assert u[|u| - 1] == post[|post| - 1];
      assert u[..|u| - 1] == s + post[..|post| - 1];
      TrimEndBlankSuffix(s, post[..|post| - 1], blanks);
    } else {
      assert u == s;
    }
  }

  /** Blanks added around a text make no difference once it is trimmed. */
  lemma TrimPadding(pre: string, s: string, post: string, blanks: Blanks)
    requires AllBlank(pre, blanks) && AllBlank(post, blanks)
    ensures Trim(pre + s + post, blanks) == Trim(s, blanks)
  {
    assert pre + s + post == pre + (s + post);
    TrimStartBlankPrefix(pre, s + post, blanks);
    TrimStartAppend(s, post, blanks);
    if TrimStart(s, blanks) == [] {
      TrimStartBlankPrefix(post, [], blanks);
      assert post + [] == post;
    } else {
      TrimEndBlankSuffix(TrimStart(s, blanks), post, blanks);
    }
  }

  /** How many times `c` occurs in `s`. */
  function Occurrences(s: string, c: char): nat
    decreases |s|
  {
    if |s| == 0 then 0 else (if s[0] == c then 1 else 0) + Occurrences(s[1..], c)
  }

  /** `String.Split(sep)`: the pieces between separators, empty ones
      included, so that there is always one piece more than there are
      separators and no piece contains the separator. */
  function Split(s: string, sep: char): (parts: seq<string>)
    ensures |parts| == Occurrences(s, sep) + 1
    ensures forall i :: 0 <= i < |parts| ==> sep !in parts[i]
    decreases |s|
  {
    if |s| == 0 then [""]
    else if s[0] == sep then [""] + Split(s[1..], sep)
    else
      var rest := Split(s[1..], sep);
      [[s[0]] + rest[0]] + rest[1..]
  }

  /** The pieces joined with `sep` between each pair of neighbours. */
  function Join(parts: seq<string>, sep: char): string
    decreases |parts|
  {
    if |parts| == 0 then ""
    else if |parts| == 1 then parts[0]
    else parts[0] + [sep] + Join(parts[1..], sep)
  }

  lemma {:induction false} SplitUnseparated(a: string, sep: char)
    requires sep !in a
    ensures Split(a, sep) == [a]
    decreases |a|
  {
    if |a| > 0 {
      SplitUnseparated(a[1..], sep);
      assert [a[0]] + a[1..] == a;
    }
  }

  lemma {:induction false} SplitFirstPiece(a: string, sep: char, b: string)
    requires sep !in a
    ensures Split(a + [sep] + b, sep) == [a] + Split(b, sep)
    decreases |a|
  {
    var s := a + [sep] + b;
    if |a| == 0 {
      assert s[1..] == b;
    } else {
      assert s[1..] == a[1..] + [sep] + b;
      SplitFirstPiece(a[1..], sep, b);
      assert [a[0]] + a[1..] == a;
    }
  }

  /** Splitting what `Join` built gives back the pieces, provided none of
      them contains the separator. */
  lemma {:induction false} SplitJoin(parts: seq<string>, sep: char)
    requires |parts| > 0
    requires forall i :: 0 <= i < |parts| ==> sep !in parts[i]
    ensures Split(Join(parts, sep), sep) == parts
    decreases |parts|
  {
    if |parts| == 1 {
      SplitUnseparated(parts[0], sep);
    } else {
      SplitJoin(parts[1..], sep);
      SplitFirstPiece(parts[0], sep, Join(parts[1..], sep));
      assert [parts[0]] + parts[1..] == parts;
    }
  }

  /** Joining the pieces of a split gives back the original text. */
  lemma {:induction false} JoinSplit(s: string, sep: char)
    ensures Join(Split(s, sep), sep) == s
    decreases |s|
  {
    if |s| > 0 {
      JoinSplit(s[1..], sep);
      var rest := Split(s[1..], sep);
      if s[0] == sep {
        assert s == [sep] + s[1..];
      } else {
        if |rest| == 1 {
          assert s == [s[0]] + rest[0];
        } else {
          assert rest == [rest[0]] + rest[1..];
          assert Join(rest, sep) == rest[0] + [sep] + Join(rest[1..], sep);
          assert s == [s[0]] + rest[0] + [sep] + Join(rest[1..], sep);
        }
      }
    }
  }

  predicate IsDigit(c: char) {
    '0' <= c <= '9'
  }

  predicate AllDigits(s: string) {
    forall i :: 0 <= i < |s| ==> IsDigit(s[i])
  }

  function DigitChar(d: nat): (c: char)
    requires d < 10
    ensures IsDigit(c) && c as int - '0' as int == d
  {
    ('0' as int + d) as char
  }

  /** The decimal digits of `n`, most significant first, without leading
      zeros. */
  function NatText(n: nat): (s: string)
    ensures |s| > 0 && AllDigits(s)
    ensures |s| > 1 ==> s[0] != '0'
    decreases n
  {
    if n < 10 then [DigitChar(n)] else NatText(n / 10) + [DigitChar(n % 10)]
  }

  /** The number a string of decimal digits denotes. */
  function DigitsValue(s: string): nat
    requires AllDigits(s)
    decreases |s|
  {
    if |s| == 0 then 0 else 10 * DigitsValue(s[..|s| - 1]) + (s[|s| - 1] as int - '0' as int)
  }

  lemma {:induction false} NatTextRoundTrip(n: nat)
    ensures DigitsValue(NatText(n)) == n
    decreases n
  {
    if n >= 10 {
      var s := NatText(n);
      assert s[..|s| - 1] == NatText(n / 10);
      NatTextRoundTrip(n / 10);
    }
  }

  /** `ToString()` of an integer in the invariant culture: a minus sign
      exactly for a negative number, then its digits. */
  function IntText(i: int): (s: string)
    ensures i < 0 ==> |s| > 1 && s[0] == '-' && AllDigits(s[1..])
    ensures i >= 0 ==> |s| > 0 && AllDigits(s)
  {
    if i < 0 then "-" + NatText(-i) else NatText(i)
  }

  /** `int.TryParse` with `NumberStyles.Integer`: surrounding number white
      space, an optional `+` or `-`, then one or more decimal digits whose
      value must fit in 32 bits; a run of NULs may follow the whole. */
  function ParseInt(s: string): Option<int32> {
    var t := Trim(TrimEnd(s, Nuls), NumberBlanks);
    var negative := |t| > 0 && t[0] == '-';
    var digits := if |t| > 0 && (t[0] == '-' || t[0] == '+') then t[1..] else t;
    if |digits| == 0 || !AllDigits(digits) then None
    else
      var n: int := if negative then -(DigitsValue(digits) as int) else DigitsValue(digits);
      if -0x8000_0000 <= n < 0x8000_0000 then Some(n as int32) else None
  }

  /** A rendered integer carries no white space or NUL to strip. */
  lemma IntTextUnpadded(i: int)
    ensures TrimEnd(IntText(i), Nuls) == IntText(i)
    ensures Trim(IntText(i), NumberBlanks) == IntText(i)
  {
    var t := IntText(i);
    assert !IsBlank(t[0], NumberBlanks) && !IsBlank(t[|t| - 1], NumberBlanks);
    assert !IsBlank(t[|t| - 1], Nuls);
  }

  /** `int.TryParse` ignores number white space on both sides and a run of
      NULs at the very end. */
  lemma ParseIntPadded(pre: string, s: string, post: string, nuls: string)
    requires AllBlank(pre, NumberBlanks) && AllBlank(post, NumberBlanks) && AllBlank(nuls, Nuls)
    requires |s| > 0 ==> s[|s| - 1] != '\0'
    ensures ParseInt(pre + s + post + nuls) == ParseInt(s)
  {
    var x := pre + s + post;
    TrimEndBlankSuffix(x, nuls, Nuls);
    if |x| > 0 {
      assert x[|x| - 1] == (if |post| > 0 then post[|post| - 1] else if |s| > 0 then s[|s| - 1] else pre[|pre| - 1]);
    }
    assert TrimEnd(x, Nuls) == x;
    assert TrimEnd(s, Nuls) == s;
    TrimPadding(pre, s, post, NumberBlanks);
  }

  /** Every 32-bit integer is read back from its own rendering. */
  lemma IntTextRoundTrip(i: int32)
    ensures ParseInt(IntText(i as int)) == Some(i)
  {
    IntTextUnpadded(i as int);
    if i < 0 {
      NatTextRoundTrip(-(i as int));
      assert IntText(i as int)[1..] == NatText(-(i as int));
    } else {
      NatTextRoundTrip(i as int);
    }
  }

  /** A decimal number beyond the 32-bit range is rejected rather than
      wrapped. */
  lemma OutOfRangeRejected(n: nat)
    requires n >= 0x8000_0000
    ensures ParseInt(IntText(n)) == None
    ensures ParseInt(IntText(-(n as int) - 1)) == None
  {
    IntTextUnpadded(n);
    NatTextRoundTrip(n);
    IntTextUnpadded(-(n as int) - 1);
    NatTextRoundTrip(n + 1);
    assert IntText(-(n as int) - 1)[1..] == NatText(n + 1);
  }

  /** ASCII case-insensitive equality, which is how `bool.TryParse`
      compares its input with "True" and "False". */
  predicate EqualsIgnoreCase(s: string, lower: string) {
    |s| == |lower| && forall i :: 0 <= i < |s| ==> AsciiLower(s[i]) == lower[i]
  }

  function AsciiLower(c: char): char {
    if 'A' <= c <= 'Z' then (c as int + 32) as char else c
  }

  /** `bool.ToString().ToLower()`. */
  function BoolText(b: bool): string {
    if b then "true" else "false"
  }

  /** `bool.TryParse`: "true" or "false" in any ASCII letter case, after
      white space and NUL characters are stripped from both ends. */
  function ParseBool(s: string): Option<bool> {
    var t := Trim(s, BoolBlanks);
    if EqualsIgnoreCase(t, "true") then Some(true)
    else if EqualsIgnoreCase(t, "false") then Some(false)
    else None
  }

  lemma BoolTextUnpadded(b: bool)
    ensures Trim(BoolText(b), BoolBlanks) == BoolText(b)
  {
    var t := BoolText(b);
    assert !IsBlank(t[0], BoolBlanks) && !IsBlank(t[|t| - 1], BoolBlanks);
  }

  /** Booleans are read back from their lower-case rendering. */
  lemma BoolTextRoundTrip(b: bool)
    ensures ParseBool(BoolText(b)) == Some(b)
  {
    BoolTextUnpadded(b);
    var t := BoolText(b);
    if b {
      assert EqualsIgnoreCase(t, "true");
    } else {
      assert |t| != |"true"|;
      assert EqualsIgnoreCase(t, "false");
    }
  }

  /** `s` is a letter-case variant of `lower` with blanks around it. */
  ghost predicate PaddedCaseVariant(s: string, lower: string, blanks: Blanks) {
    exists a: nat, b: nat :: a <= b <= |s| && AllBlank(s[..a], blanks) && AllBlank(s[b..], blanks)
      && EqualsIgnoreCase(s[a..b], lower)
  }

  lemma AllBlankSlice(s: string, lo: nat, hi: nat, blanks: Blanks)
    requires lo <= hi <= |s|
    requires forall i :: lo <= i < hi ==> IsBlank(s[i], blanks)
    ensures AllBlank(s[lo..hi], blanks)
  {
    forall i | 0 <= i < hi - lo ensures IsBlank(s[lo..hi][i], blanks) {
      assert s[lo..hi][i] == s[lo + i];
    }
  }

  lemma CaseVariantUnpadded(w: string, lower: string)
    requires lower == "true" || lower == "false"
    requires EqualsIgnoreCase(w, lower)
    ensures Trim(w, BoolBlanks) == w
  {
    assert AsciiLower(w[0]) == lower[0] && AsciiLower(w[|w| - 1]) == lower[|lower| - 1];
    TrimSpec(w, BoolBlanks);
  }

  /** What `bool.TryParse` accepts is a padded case variant of a rendering. */
  lemma ParsedBoolIsPadded(s: string, b: bool)
    requires ParseBool(s) == Some(b)
    ensures PaddedCaseVariant(s, BoolText(b), BoolBlanks)
  {
    var t := Trim(s, BoolBlanks);
    TrimSpec(s, BoolBlanks);
    var a := |s| - |TrimStart(s, BoolBlanks)|;
    var b' := a + |t|;
    assert EqualsIgnoreCase(s[a..b'], BoolText(b));
    AllBlankSlice(s, 0, a, BoolBlanks);
    assert s[0..a] == s[..a];
    AllBlankSlice(s, b', |s|, BoolBlanks);
    assert s[b'..|s|] == s[b'..];
  }

  /** A padded case variant of a rendering is accepted. */
  lemma PaddedBoolIsParsed(s: string, b: bool)
    requires PaddedCaseVariant(s, BoolText(b), BoolBlanks)
    ensures ParseBool(s) == Some(b)
  {
    var a: nat, b': nat :| a <= b' <= |s| && AllBlank(s[..a], BoolBlanks) && AllBlank(s[b'..], BoolBlanks)
      && EqualsIgnoreCase(s[a..b'], BoolText(b));
    var w := s[a..b'];
    assert s == s[..a] + w + s[b'..];
    TrimPadding(s[..a], w, s[b'..], BoolBlanks);
    CaseVariantUnpadded(w, BoolText(b));
    assert |"true"| != |"false"|;
  }

  /** `bool.TryParse` yields `b` exactly for the renderings of `b` in any
      ASCII letter case, with any white space and NULs around them. */
  lemma ParseBoolLenient(s: string, b: bool)
    ensures ParseBool(s) == Some(b) <==> PaddedCaseVariant(s, BoolText(b), BoolBlanks)
  {
    if ParseBool(s) == Some(b) {
      ParsedBoolIsPadded(s, b);
    }
    if PaddedCaseVariant(s, BoolText(b), BoolBlanks) {
      PaddedBoolIsParsed(s, b);
    }
  }

  /** `bool.TryParse` rejects every text that is not, apart from white
      space and NULs around it, "true" or "false" in some letter case. */
  lemma ParseBoolRejects(s: string)
    ensures ParseBool(s).None? <==>
      !PaddedCaseVariant(s, "true", BoolBlanks) && !PaddedCaseVariant(s, "false", BoolBlanks)
  {
    ParseBoolLenient(s, true);
    ParseBoolLenient(s, false);
  }
}
