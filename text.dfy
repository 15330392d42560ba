/** The Python string operations the cleaning and window code relies on:
    `str.lower`, `str.split()`, the regular-expression substitution that
    builds PRSN ids, `int(text)` and `str(int)`. Word characters are modelled
    on ASCII only; whitespace on the first 256 code points. */
module Text {
  import opened Events

  /** Python `str.isspace` / regex `\s` restricted to the first 256 code points. */
  predicate IsSpace(c: char)
  {
    c == ' ' || ('\t' <= c <= '\r') || ('\U{1C}' <= c <= '\U{1F}') || c == '\U{85}' || c == '\U{A0}'
  }

  /** Regex `\w` restricted to ASCII: letters, digits and underscore. */
  predicate IsWordChar(c: char)
  {
    ('a' <= c <= 'z') || ('A' <= c <= 'Z') || ('0' <= c <= '9') || c == '_'
  }

  predicate IsDigit(c: char)
  {
    '0' <= c <= '9'
  }

  predicate IsUpper(c: char)
  {
    'A' <= c <= 'Z'
  }

  // ---------------------------------------------------------------- filter

  /** The characters of `s` that satisfy `p`, in order. */
  function Keep(s: string, p: char -> bool): (r: string)
    ensures |r| <= |s|
    ensures forall c :: c in r <==> c in s && p(c)
  {
    if s == [] then [] else (if p(s[0]) then [s[0]] else []) + Keep(s[1..], p)
  }

  lemma {:induction false} KeepAppend(a: string, b: string, p: char -> bool)
    ensures Keep(a + b, p) == Keep(a, p) + Keep(b, p)
  {
    if a == [] {
      assert a + b == b;
    } else {
      assert (a + b)[0] == a[0];
      assert (a + b)[1..] == a[1..] + b;
      KeepAppend(a[1..], b, p);
    }
  }

  lemma KeepSingle(c: char, p: char -> bool)
    ensures Keep([c], p) == if p(c) then [c] else []
  {
    assert [c][1..] == [];
  }

  lemma {:induction false} KeepAll(s: string, p: char -> bool)
    requires forall c :: c in s ==> p(c)
    ensures Keep(s, p) == s
  {
    if s != [] {
      KeepAll(s[1..], p);
    }
  }

  // --------------------------------------------------------------- PRSN id

  /** Characters the pattern `[^\w\s']` does not remove. */
  predicate IdChar(c: char)
  {
    IsWordChar(c) || IsSpace(c) || c == '\''
  }

  /** `re.sub(r"[^\w\s']", "", s)`: deletes every other character. */
  function StripPunctuation(s: string): (r: string)
    ensures |r| <= |s|
    ensures forall c :: c in r <==> c in s && IdChar(c)
  {
    Keep(s, IdChar)
  }

  predicate NotBlank(c: char)
  {
    c != ' '
  }

  /** `s.replace(' ', '')`. */
  function DeleteSpaces(s: string): (r: string)
    ensures |r| <= |s| && ' ' !in r
    ensures forall c :: c in r <==> c in s && c != ' '
  {
    Keep(s, NotBlank)
  }

  /** The synthetic PRSN id built from the raw `UTC Time` text. It depends on
      that text alone; what survives is exactly the word characters, the
      non-blank whitespace and apostrophes, in their original order. */
  function PrsnId(utcTime: string): (id: string)
    ensures |id| <= |utcTime| && ' ' !in id
    ensures forall c :: c in id <==> c in utcTime && IdChar(c) && c != ' '
  {
    DeleteSpaces(StripPunctuation(utcTime))
  }

  /** Building an id works character by character: the id of a concatenation
      is the concatenation of the ids. */
  lemma PrsnIdAppend(a: string, b: string)
    ensures PrsnId(a + b) == PrsnId(a) + PrsnId(b)
  {
    KeepAppend(a, b, IdChar);
    KeepAppend(StripPunctuation(a), StripPunctuation(b), NotBlank);
  }

  /** An id is a fixed point: stripping it again changes nothing. */
  lemma PrsnIdIdempotent(s: string)
    ensures PrsnId(PrsnId(s)) == PrsnId(s)
  {
    var id := PrsnId(s);
    KeepAll(id, IdChar);
    KeepAll(id, NotBlank);
  }

  lemma PrsnIdOfDigits(s: string)
    requires AllDigits(s)
    ensures PrsnId(s) == s
  {
    KeepAll(s, IdChar);
    KeepAll(s, NotBlank);
  }

  /** A separator the id drops splits the id into the ids of both sides. */
  lemma {:induction false} PrsnIdDropsSeparator(a: string, sep: char, b: string)
    requires !IdChar(sep) || sep == ' '
    ensures PrsnId(a + [sep] + b) == PrsnId(a) + PrsnId(b)
  {
    KeepSingle(sep, IdChar);
    if IdChar(sep) {
      KeepSingle(sep, NotBlank);
    }
    assert PrsnId([sep]) == [];
    PrsnIdAppend(a, [sep]);
    PrsnIdAppend(a + [sep], b);
  }

  lemma PrsnIdOfTriple(a: string, s1: char, b: string, s2: char, c: string)
    requires AllDigits(a) && AllDigits(b) && AllDigits(c)
    requires !IdChar(s1) && !IdChar(s2)
    ensures PrsnId(a + [s1] + b + [s2] + c) == a + b + c
  {
    PrsnIdOfDigits(a); PrsnIdOfDigits(b); PrsnIdOfDigits(c);
    PrsnIdDropsSeparator(a + [s1] + b, s2, c);
    PrsnIdDropsSeparator(a, s1, b);
  }

  lemma TimestampSeparators()
    ensures !IdChar('-') && !IdChar(':') && NotBlank('-') && !NotBlank(' ')
  {
  }

  lemma TimestampShape(y: string, mo: string, d: string, h: string, mi: string, s: string)
    ensures y + "-" + mo + "-" + d + " " + h + ":" + mi + ":" + s ==
      (y + ['-'] + mo + ['-'] + d) + [' '] + (h + [':'] + mi + [':'] + s)
  {
  }

  /** A timestamp "YYYY-MM-DD HH:MM:SS" loses its dashes, blank and colons:
      its id is the run of its digits. */
  lemma PrsnIdOfTimestamp(y: string, mo: string, d: string, h: string, mi: string, s: string)
    requires AllDigits(y) && AllDigits(mo) && AllDigits(d)
    requires AllDigits(h) && AllDigits(mi) && AllDigits(s)
    ensures PrsnId(y + "-" + mo + "-" + d + " " + h + ":" + mi + ":" + s) == y + mo + d + h + mi + s
  {
    TimestampSeparators();
    var date := y + ['-'] + mo + ['-'] + d;
    var time := h + [':'] + mi + [':'] + s;
    PrsnIdOfTriple(y, '-', mo, '-', d);
    PrsnIdOfTriple(h, ':', mi, ':', s);
    PrsnIdDropsSeparator(date, ' ', time);
    TimestampShape(y, mo, d, h, mi, s);
  }

  // ----------------------------------------------------------------- lower

  /** Python `str.lower` on ASCII letters; other characters are kept. */
  function LowerChar(c: char): (l: char)
    ensures !IsUpper(l)
    ensures IsUpper(c) ==> l as int == c as int + 32
    ensures !IsUpper(c) ==> l == c
  {
    if IsUpper(c) then (c as int + 32) as char else c
  }

  function Lower(s: string): (r: string)
    ensures |r| == |s|
    ensures forall i :: 0 <= i < |s| ==> r[i] == LowerChar(s[i])
  {
    seq(|s|, i requires 0 <= i < |s| => LowerChar(s[i]))
  }

  /** Lower-casing leaves no upper-case letter, keeps every other character
      and is idempotent. */
  lemma LowerSpec(s: string)
    ensures forall c :: c in Lower(s) ==> !IsUpper(c)
    ensures forall i :: 0 <= i < |s| && !IsUpper(s[i]) ==> Lower(s)[i] == s[i]
    ensures Lower(Lower(s)) == Lower(s)
  {
  }

  // ----------------------------------------------------------------- split

  /** The longest prefix of `s` that holds no whitespace. */
  function Word(s: string): (w: string)
    ensures w <= s
    ensures forall c :: c in w ==> !IsSpace(c)
    ensures |w| < |s| ==> IsSpace(s[|w|])
  {
    if s == [] || IsSpace(s[0]) then [] else [s[0]] + Word(s[1..])
  }

  /** Python `s.split()`: the maximal runs of non-whitespace, in order. */
  function Split(s: string): (tokens: seq<string>)
    ensures forall t :: t in tokens ==> t != [] && forall c :: c in t ==> !IsSpace(c)
    decreases |s|
  {
    if s == [] then []
    else if IsSpace(s[0]) then Split(s[1..])
    else
      var w := Word(s);
      [w] + Split(s[|w|..])
  }

  lemma {:induction false} WordOfPrefix(a: string, rest: string)
    requires forall c :: c in a ==> !IsSpace(c)
    requires rest == [] || IsSpace(rest[0])
    ensures Word(a + rest) == a
  {
    if a != [] {
      assert (a + rest)[1..] == a[1..] + rest;
      WordOfPrefix(a[1..], rest);
    }
  }

  /** Splitting "<mag> <magType>" gives back the two fields. */
  lemma SplitPair(a: string, b: string)
    requires a != [] && b != []
    requires forall c :: c in a ==> !IsSpace(c)
    requires forall c :: c in b ==> !IsSpace(c)
    ensures Split(a + " " + b) == [a, b]
  {
    var s := a + " " + b;
    assert a[0] in a && s[0] == a[0];
    assert b[0] in b;
    WordOfPrefix(a, " " + b);
    assert s == a + (" " + b);
    assert s[|a|..] == " " + b;
    assert (" " + b)[1..] == b;
    WordOfPrefix(b, []);
    assert b + [] == b;
    assert b[|b|..] == [];
    assert Word(s) == a;
    assert Split(s) == [a] + Split(s[|a|..]);
    assert Split(" " + b) == Split(b);
    assert Split(b) == [b] + Split([]);
  }

  /** Text made only of whitespace has no tokens. */
  lemma {:induction false} SplitBlank(ws: string)
    requires forall c :: c in ws ==> IsSpace(c)
    ensures Split(ws) == []
  {
    if ws != [] {
      assert ws[0] in ws;
      SplitBlank(ws[1..]);
    }
  }

  /** A maximal whitespace-free run at the front of the text is the first
      token, and splitting goes on after it. */
  lemma SplitWord(w: string, rest: string)
    requires w != [] && forall c :: c in w ==> !IsSpace(c)
    requires rest == [] || IsSpace(rest[0])
    ensures Split(w + rest) == [w] + Split(rest)
  {
    var s := w + rest;
    assert w[0] in w && s[0] == w[0];
    WordOfPrefix(w, rest);
    assert s[|w|..] == rest;
  }

  /** A token followed by one whitespace character: the token comes first and
      the whitespace character is dropped. */
  lemma SplitToken(w: string, c: char, rest: string)
    requires w != [] && forall x :: x in w ==> !IsSpace(x)
    requires IsSpace(c)
    ensures Split(w + [c] + rest) == [w] + Split(rest)
  {
    assert w + [c] + rest == w + ([c] + rest);
    SplitWord(w, [c] + rest);
    assert ([c] + rest)[1..] == rest;
  }

  /** The tokens joined together, in order. */
  function Concat(tokens: seq<string>): string
  {
    if tokens == [] then [] else tokens[0] + Concat(tokens[1..])
  }

  predicate NotSpace(c: char)
  {
    !IsSpace(c)
  }

  /** Splitting loses nothing but whitespace: the tokens joined together are
      the text with every whitespace character removed. */
  lemma {:induction false} SplitConcat(s: string)
    ensures Concat(Split(s)) == Keep(s, NotSpace)
    decreases |s|
  {
    if s != [] {
      if IsSpace(s[0]) {
        SplitConcat(s[1..]);
      } else {
        var w := Word(s);
        var rest := s[|w|..];
        assert s == w + rest;
        SplitConcat(rest);
        KeepAppend(w, rest, NotSpace);
        KeepAll(w, NotSpace);
        assert Split(s) == [w] + Split(rest);
        assert ([w] + Split(rest))[1..] == Split(rest);
      }
    }
  }

  // --------------------------------------------------------------- numbers

  function DigitChar(d: nat): (c: char)
    requires d < 10
    ensures IsDigit(c) && c as int - '0' as int == d
  {
    ('0' as int + d) as char
  }

  /** `str(n)` for a non-negative integer: decimal digits, no leading zero. */
  function NatToString(n: nat): (s: string)
    ensures |s| >= 1
    ensures forall c :: c in s ==> IsDigit(c)
    ensures |s| > 1 ==> s[0] != '0'
  {
    if n < 10 then [DigitChar(n)] else NatToString(n / 10) + [DigitChar(n % 10)]
  }

  /** `str(i)` for any integer; `int(str(i)) == i`. */
  function IntToString(i: int): (s: string)
    ensures ParseInt(s) == Some(i)
  {
    if i < 0 then
      IntToStringReads(i);
      "-" + NatToString(-i)
    else
      ParseNatToString(i);
      NatToString(i)
  }

  /** The negative branch of `str(i)` reads back as `i`. */
  lemma IntToStringReads(i: int)
    requires i < 0
    ensures ParseInt("-" + NatToString(-i)) == Some(i)
  {
    DigitsValueOfNat(-i);
    ParseIntNegated(NatToString(-i), -i);
  }

  /** Two-digit zero-padded rendering (`%02d`). */
  function Pad2(n: nat): (s: string)
    requires n < 100
    ensures |s| == 2 && forall c :: c in s ==> IsDigit(c)
  {
    [DigitChar(n / 10), DigitChar(n % 10)]
  }

  /** Four-digit zero-padded rendering (`%04d`). */
  function Pad4(n: nat): (s: string)
    requires n < 10000
    ensures |s| == 4 && forall c :: c in s ==> IsDigit(c)
  {
    Pad2(n / 100) + Pad2(n % 100)
  }

  predicate AllDigits(s: string)
  {
    forall c :: c in s ==> IsDigit(c)
  }

  /** The value of a string of decimal digits, leading zeros allowed. */
  function DigitsValue(s: string): nat
    requires AllDigits(s)
  {
    if s == [] then 0
    else
      assert s[|s| - 1] in s;
      DigitsValue(s[..|s| - 1]) * 10 + (s[|s| - 1] as int - '0' as int)
  }

  /** `str.lstrip()`: the suffix left after the leading whitespace. */
  function TrimLeft(s: string): (r: string)
    ensures |r| <= |s| && r == s[|s| - |r|..]
    ensures forall i :: 0 <= i < |s| - |r| ==> IsSpace(s[i])
    ensures r == [] || !IsSpace(r[0])
  {
    if s != [] && IsSpace(s[0]) then
      var r := TrimLeft(s[1..]);
      assert s[1..][|s| - 1 - |r|..] == s[|s| - |r|..];
      assert forall i :: 1 <= i < |s| - |r| ==> s[i] == s[1..][i - 1];
      r
    else s
  }

  /** `str.rstrip()`: the prefix left before the trailing whitespace. */
  function TrimRight(s: string): (r: string)
    ensures r <= s
    ensures forall i :: |r| <= i < |s| ==> IsSpace(s[i])
    ensures r == [] || !IsSpace(r[|r| - 1])
  {
    if s != [] && IsSpace(s[|s| - 1]) then TrimRight(s[..|s| - 1]) else s
  }

  /** An optional sign followed by one or more decimal digits. */
  predicate IntLiteral(t: string)
  {
    if t != [] && (t[0] == '+' || t[0] == '-') then t[1..] != [] && AllDigits(t[1..])
    else t != [] && AllDigits(t)
  }

  /** Python `int(text)`: surrounding whitespace, an optional sign, then one
      or more decimal digits; anything else raises ValueError (None here).
      Digit-group underscores and non-ASCII digits are not modelled. */
  function ParseInt(s: string): (r: Option<int>)
    ensures r.Some? <==> IntLiteral(TrimRight(TrimLeft(s)))
  {
    var t := TrimRight(TrimLeft(s));
    if t == [] then None
    else if t[0] == '+' || t[0] == '-' then
      var body := t[1..];
      if body != [] && AllDigits(body) then
        var v: int := DigitsValue(body);
        Some(if t[0] == '-' then -v else v)
      else None
    else if AllDigits(t) then Some(DigitsValue(t))
    else None
  }

  lemma {:induction false} DigitsValueOfNat(n: nat)
    ensures DigitsValue(NatToString(n)) == n
  {
    var s := NatToString(n);
    if n < 10 {
      assert s[..0] == [];
    } else {
      DigitsValueOfNat(n / 10);
      assert s[..|s| - 1] == NatToString(n / 10);
    }
  }

  lemma TrimDigits(s: string)
    requires s != [] && AllDigits(s)
    ensures TrimRight(TrimLeft(s)) == s
  {
    assert !IsSpace(s[0]) by { assert s[0] in s; }
    assert TrimLeft(s) == s;
    assert !IsSpace(s[|s| - 1]) by { assert s[|s| - 1] in s; }
    assert TrimRight(s) == s;
  }

  /** `int(str(n)) == n`: the decimal rendering parses back. */
  lemma ParseNatToString(n: nat)
    ensures ParseInt(NatToString(n)) == Some(n)
  {
    var s := NatToString(n);
    TrimDigits(s);
    assert s[0] in s;
    DigitsValueOfNat(n);
  }

  /** A zero-padded two-digit field reads as its value. */
  lemma DigitsValuePad2(n: nat)
    requires n < 100
    ensures DigitsValue(Pad2(n)) == n
  {
    var s := Pad2(n);
    assert s[..1] == [DigitChar(n / 10)];
    assert s[..1][..0] == [];
    assert DigitsValue(s[..1]) == n / 10;
    assert DigitsValue(s) == (n / 10) * 10 + n % 10;
  }

  /** A minus sign followed by digits reads as the negated digits. */
  lemma ParseIntNegated(d: string, v: nat)
    requires d != [] && AllDigits(d) && DigitsValue(d) == v
    ensures ParseInt("-" + d) == Some(-(v as int))
  {
    var t := "-" + d;
    assert t[1..] == d;
    assert d[|d| - 1] in d;
    TrimUnpadded(t);
  }

  /** Text with no whitespace at either end is left as is by both trims. */
  lemma TrimUnpadded(t: string)
    requires t != [] && !IsSpace(t[0]) && !IsSpace(t[|t| - 1])
    ensures TrimLeft(t) == t && TrimRight(t) == t
  {
  }

  /** `int(str(-n)) == -n`: a minus sign before the digits negates them. */
  lemma ParseNegative(n: nat)
    ensures ParseInt("-" + NatToString(n)) == Some(-(n as int))
  {
    DigitsValueOfNat(n);
    ParseIntNegated(NatToString(n), n);
  }

  /** `int("%02d" % n) == n`: a zero-padded field parses back. */
  lemma ParsePad2(n: nat)
    requires n < 100
    ensures ParseInt(Pad2(n)) == Some(n)
  {
    var s := Pad2(n);
    TrimDigits(s);
    assert s[0] in s;
    DigitsValuePad2(n);
  }

  /** Appending two digits shifts the value by two decimal places. */
  lemma DigitsValueAppend2(a: string, b: string)
    requires AllDigits(a) && AllDigits(b) && |b| == 2
    ensures AllDigits(a + b)
    ensures DigitsValue(a + b) == DigitsValue(a) * 100 + DigitsValue(b)
  {
    var s := a + b;
    assert b[0] in b && b[1] in b;
    assert s[..|s| - 1] == a + [b[0]];
    assert (a + [b[0]])[..|a|] == a;
    assert b[..1] == [b[0]] && [b[0]][..0] == [];
    assert DigitsValue([b[0]]) == b[0] as int - '0' as int;
  }

  /** `int("%04d" % n) == n`: a zero-padded year parses back. */
  lemma ParsePad4(n: nat)
    requires n < 10000
    ensures ParseInt(Pad4(n)) == Some(n)
  {
    var s := Pad4(n);
    DigitsValuePad2(n / 100);
    DigitsValuePad2(n % 100);
    DigitsValueAppend2(Pad2(n / 100), Pad2(n % 100));
    TrimDigits(s);
    assert s[0] in s;
  }
}
