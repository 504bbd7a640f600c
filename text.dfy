/** Byte strings and the few pieces of Python's `str`/`bytes` behaviour that MiniBit
    relies on: `strip`, `split`, `startswith`, `int()` and `str()` of integers, and
    whether a byte string decodes as UTF-8. Python text values are represented by
    their UTF-8 encoding, so every message, file name, host and peer id is a `Bytes`. */
module Text {

  newtype byte = x: int | 0 <= x < 256

  type Bytes = seq<byte>

  datatype Option<T> = None | Some(value: T)

  /** The bytes of an ASCII literal. */
  function Ascii(s: string): Bytes
  {
    seq(|s|, i requires 0 <= i < |s| => (s[i] as int % 256) as byte)
  }

  const SPACE: byte := 32
  const PLUS: byte := 43
  const COMMA: byte := 44
  const MINUS: byte := 45
  const DOT: byte := 46
  const COLON: byte := 58
  const UNDERSCORE: byte := 95

  predicate StartsWith(s: Bytes, prefix: Bytes)
  {
    |prefix| <= |s| && s[..|prefix|] == prefix
  }

  predicate EndsWith(s: Bytes, suffix: Bytes)
  {
    |suffix| <= |s| && s[|s| - |suffix|..] == suffix
  }

  predicate IsDigit(b: byte)
  {
    48 <= b <= 57
  }

  /** Whitespace for `bytes` (C's isspace, used by `int(b"...")`). */
  predicate IsByteSpace(b: byte)
  {
    b == SPACE || 9 <= b <= 13
  }

  /** ASCII whitespace for `str` (`str.isspace` also counts the separators 0x1C-0x1F). */
  predicate IsTextSpace(b: byte)
  {
    IsByteSpace(b) || 28 <= b <= 31
  }

  predicate IsSpace(b: byte, isText: bool)
  {
    if isText then IsTextSpace(b) else IsByteSpace(b)
  }

  predicate NoSpace(s: Bytes)
  {
    forall i :: 0 <= i < |s| ==> !IsTextSpace(s[i])
  }

  /** `str.isdigit()` restricted to ASCII: non-empty and all digits. */
  predicate IsDigits(s: Bytes)
  {
    s != [] && forall i :: 0 <= i < |s| ==> IsDigit(s[i])
  }

  // ---------------------------------------------------------------------------
  // strip
  // ---------------------------------------------------------------------------

  function LStrip(s: Bytes, isText: bool): (r: Bytes)
    ensures |r| <= |s| && r == s[|s| - |r|..]
    ensures r != [] ==> !IsSpace(r[0], isText)
    ensures forall i :: 0 <= i < |s| - |r| ==> IsSpace(s[i], isText)
  {
    if s != [] && IsSpace(s[0], isText) then LStrip(s[1..], isText) else s
  }

  function RStrip(s: Bytes, isText: bool): (r: Bytes)
    ensures |r| <= |s| && r == s[..|r|]
    ensures r != [] ==> !IsSpace(r[|r| - 1], isText)
    ensures forall i :: |r| <= i < |s| ==> IsSpace(s[i], isText)
  {
    if s != [] && IsSpace(s[|s| - 1], isText) then RStrip(s[..|s| - 1], isText) else s
  }

  /** `s.strip()`: drops leading and trailing whitespace. */
  function Strip(s: Bytes, isText: bool): (r: Bytes)
    ensures |r| <= |s|
    ensures r != [] ==> !IsSpace(r[0], isText) && !IsSpace(r[|r| - 1], isText)
  {
    RStrip(LStrip(s, isText), isText)
  }

  lemma StripUnpadded(s: Bytes, isText: bool)
    requires s != [] ==> !IsSpace(s[0], isText) && !IsSpace(s[|s| - 1], isText)
    ensures Strip(s, isText) == s
  {
  }

  /** Stripping removes any whitespace padding around a text with none at its ends. */
  lemma {:induction false} StripPadded(pre: Bytes, s: Bytes, post: Bytes)
    requires forall i :: 0 <= i < |pre| ==> IsTextSpace(pre[i])
    requires forall i :: 0 <= i < |post| ==> IsTextSpace(post[i])
    requires s != [] && !IsTextSpace(s[0]) && !IsTextSpace(s[|s| - 1])
    ensures Strip(pre + s + post, true) == s
  {
    var t := s + post;
    ConcatAssoc(pre, s, post);
    LStripSpaces(pre, t);
    RStripSpaces(s, post);
    StripOf(pre + t, t, s);
  }

  lemma ConcatAssoc(a: Bytes, b: Bytes, c: Bytes)
    ensures a + b + c == a + (b + c)
  {
  }

  /** Stripping is right-stripping what left-stripping leaves. */
  lemma StripOf(whole: Bytes, left: Bytes, r: Bytes)
    requires LStrip(whole, true) == left && RStrip(left, true) == r
    ensures Strip(whole, true) == r
  {
  }

  lemma {:induction false} LStripSpaces(pre: Bytes, s: Bytes)
    requires forall i :: 0 <= i < |pre| ==> IsTextSpace(pre[i])
    requires s != [] && !IsTextSpace(s[0])
    ensures LStrip(pre + s, true) == s
  {
    if pre != [] {
      assert (pre + s)[1..] == pre[1..] + s;
      LStripSpaces(pre[1..], s);
    }
  }

  lemma {:induction false} RStripSpaces(s: Bytes, post: Bytes)
    requires forall i :: 0 <= i < |post| ==> IsTextSpace(post[i])
    requires s != [] && !IsTextSpace(s[|s| - 1])
    ensures RStrip(s + post, true) == s
  {
    if post != [] {
      assert (s + post)[..|s + post| - 1] == s + post[..|post| - 1];
      RStripSpaces(s, post[..|post| - 1]);
    }
  }

  // ---------------------------------------------------------------------------
  // split
  // ---------------------------------------------------------------------------

  /** Length of the leading run of non-whitespace bytes. */
  function TokenLen(s: Bytes): (k: nat)
    ensures k <= |s|
    ensures forall i :: 0 <= i < k ==> !IsTextSpace(s[i])
    ensures k < |s| ==> IsTextSpace(s[k])
    ensures s != [] && !IsTextSpace(s[0]) ==> k >= 1
  {
    if s == [] || IsTextSpace(s[0]) then 0 else 1 + TokenLen(s[1..])
  }

  /** `str.split()`: the maximal runs of non-whitespace, in order. */
  function Split(s: Bytes): (parts: seq<Bytes>)
    ensures AreWords(parts)
    decreases |s|
  {
    var t := LStrip(s, true);
    if t == [] then []
    else
      var k := TokenLen(t);
      TokenIsWord(t);
      WordsCons(t[..k], Split(t[k..]));
      [t[..k]] + Split(t[k..])
  }

  lemma WordsCons(w: Bytes, words: seq<Bytes>)
    requires w != [] && NoSpace(w) && AreWords(words)
    ensures AreWords([w] + words)
  {
  }

  /** The leading token of a text that starts with a non-whitespace byte is a word. */
  lemma TokenIsWord(t: Bytes)
    requires t != [] && !IsTextSpace(t[0])
    ensures t[..TokenLen(t)] != [] && NoSpace(t[..TokenLen(t)])
  {
  }

  /** `str.split(maxsplit=1)`: the first word, then the rest with its leading whitespace removed. */
  function SplitOnce(s: Bytes): (parts: seq<Bytes>)
    ensures |parts| <= 2
  {
    var t := LStrip(s, true);
    if t == [] then []
    else
      var k := TokenLen(t);
      var rest := LStrip(t[k..], true);
      if rest == [] then [t[..k]] else [t[..k], rest]
  }

  lemma {:induction false} SplitOfTokens(a: Bytes, b: Bytes)
    requires a != [] && NoSpace(a) && b != [] && NoSpace(b)
    ensures Split(a + [SPACE] + b) == [a, b]
  {
    SplitHead(a, b);
    SplitSpace(b);
    SplitSingle(b);
    assert Split(a + [SPACE] + b) == [a] + Split([SPACE] + b);
    assert Split([SPACE] + b) == [b];
  }

  lemma {:induction false} SplitHead(a: Bytes, b: Bytes)
    requires a != [] && NoSpace(a)
    ensures Split(a + [SPACE] + b) == [a] + Split([SPACE] + b)
  {
    var sb := [SPACE] + b;
    assert sb[0] == SPACE;
    assert a + [SPACE] + b == a + sb;
    SplitWord(a, sb);
  }

  lemma {:induction false} SplitSingle(b: Bytes)
    requires b != [] && NoSpace(b)
    ensures Split(b) == [b]
  {
    var e: Bytes := [];
    assert b + e == b;
    assert Split(e) == [];
    SplitWord(b, e);
  }

  lemma SplitSpace(b: Bytes)
    requires b != [] && !IsTextSpace(b[0])
    ensures Split([SPACE] + b) == Split(b)
  {
    assert ([SPACE] + b)[1..] == b;
    assert LStrip([SPACE] + b, true) == b;
    assert LStrip(b, true) == b;
  }

  /** A word followed by whitespace (or nothing) is the first piece of the split. */
  lemma SplitWord(a: Bytes, rest: Bytes)
    requires a != [] && NoSpace(a)
    requires rest == [] || IsTextSpace(rest[0])
    ensures Split(a + rest) == [a] + Split(rest)
  {
    var s := a + rest;
    assert LStrip(s, true) == s;
    TokenLenOf(a, rest);
    assert s[..|a|] == a;
    assert s[|a|..] == rest;
  }

  lemma {:induction false} TokenLenOf(a: Bytes, rest: Bytes)
    requires NoSpace(a)
    requires rest == [] || IsTextSpace(rest[0])
    ensures TokenLen(a + rest) == |a|
  {
    if a != [] {
      assert (a + rest)[1..] == a[1..] + rest;
      TokenLenOf(a[1..], rest);
    } else {
      assert a + rest == rest;
    }
  }

  /** Splitting "word rest" at its first whitespace, for a word and a rest without outer whitespace. */
  lemma {:induction false} SplitOnceOf(word: Bytes, rest: Bytes)
    requires word != [] && NoSpace(word)
    requires rest != [] && !IsTextSpace(rest[0])
    ensures SplitOnce(word + [SPACE] + rest) == [word, rest]
  {
    var s := word + [SPACE] + rest;
    assert LStrip(s, true) == s;
    assert s == word + ([SPACE] + rest);
    TokenLenOf(word, [SPACE] + rest);
    assert s[|word|..] == [SPACE] + rest;
    assert ([SPACE] + rest)[1..] == rest;
    assert LStrip([SPACE] + rest, true) == LStrip(rest, true);
  }

  /** Index of the first occurrence of `b`. */
  function IndexOf(s: Bytes, b: byte): (r: Option<nat>)
    ensures r.Some? ==> r.value < |s| && s[r.value] == b && b !in s[..r.value]
    ensures r.None? <==> b !in s
  {
    if s == [] then None
    else if s[0] == b then Some(0)
    else match IndexOf(s[1..], b)
      case None => None
      case Some(k) => Some(k + 1)
  }

  lemma IndexOfAfter(a: Bytes, b: byte, rest: Bytes)
    requires b !in a
    ensures IndexOf(a + [b] + rest, b) == Some(|a|)
  {
    assert (a + [b] + rest)[|a|] == b;
    assert (a + [b] + rest)[..|a|] == a;
  }

  /** `s.split(sep)` for a one-byte separator: the pieces between separators, in order. */
  function SplitOn(s: Bytes, sep: byte): (parts: seq<Bytes>)
    ensures |parts| >= 1
    ensures forall i :: 0 <= i < |parts| ==> sep !in parts[i]
    decreases |s|
  {
    match IndexOf(s, sep)
    case None => [s]
    case Some(k) => [s[..k]] + SplitOn(s[k + 1..], sep)
  }

  /** A piece without the separator, then the separator, splits off first. */
  lemma SplitOnFirst(a: Bytes, sep: byte, rest: Bytes)
    requires sep !in a
    ensures SplitOn(a + [sep] + rest, sep) == [a] + SplitOn(rest, sep)
  {
    IndexOfAfter(a, sep, rest);
    assert (a + [sep] + rest)[..|a|] == a;
    assert (a + [sep] + rest)[|a| + 1..] == rest;
  }

  /** `b"".join(parts)`. */
  function Concat(parts: seq<Bytes>): Bytes
  {
    if parts == [] then [] else Concat(parts[..|parts| - 1]) + parts[|parts| - 1]
  }

  /** `sep.join(parts)`. */
  function Join(parts: seq<Bytes>, sep: byte): Bytes
  {
    if |parts| == 0 then []
    else if |parts| == 1 then parts[0]
    else parts[0] + [sep] + Join(parts[1..], sep)
  }

  /** Splitting undoes joining when no piece contains the separator. */
  lemma {:induction false} SplitOnJoin(parts: seq<Bytes>, sep: byte)
    requires |parts| >= 1
    requires forall i :: 0 <= i < |parts| ==> sep !in parts[i]
    ensures SplitOn(Join(parts, sep), sep) == parts
  {
    if |parts| > 1 {
      var tail := Join(parts[1..], sep);
      IndexOfAfter(parts[0], sep, tail);
      assert (parts[0] + [sep] + tail)[..|parts[0]|] == parts[0];
      assert (parts[0] + [sep] + tail)[|parts[0]| + 1..] == tail;
      SplitOnJoin(parts[1..], sep);
    }
  }

  /** Non-empty pieces without whitespace. */
  predicate AreWords(words: seq<Bytes>)
  {
    forall i :: 0 <= i < |words| ==> words[i] != [] && NoSpace(words[i])
  }

  lemma JoinCons(words: seq<Bytes>, sep: byte)
    requires |words| >= 2
    ensures Join(words, sep) == words[0] + [sep] + Join(words[1..], sep)
  {
  }

  lemma JoinHead(words: seq<Bytes>, sep: byte)
    requires |words| >= 1 && words[0] != []
    ensures Join(words, sep) != [] && Join(words, sep)[0] == words[0][0]
  {
  }

  lemma SplitCons(w: Bytes, tail: Bytes)
    requires w != [] && NoSpace(w) && tail != [] && !IsTextSpace(tail[0])
    ensures Split(w + [SPACE] + tail) == [w] + Split(tail)
  {
    SplitHead(w, tail);
    SplitSpace(tail);
  }

  /** `" ".join(words).split() == words` for words without whitespace. */
  lemma {:induction false} SplitJoinWords(words: seq<Bytes>)
    requires |words| >= 1 && AreWords(words)
    ensures Split(Join(words, SPACE)) == words
  {
    if |words| == 1 {
      SplitSingle(words[0]);
    } else {
      SplitJoinWords(words[1..]);
      SplitJoinStep(words);
    }
  }

  lemma SplitJoinStep(words: seq<Bytes>)
    requires |words| >= 2 && AreWords(words)
    requires Split(Join(words[1..], SPACE)) == words[1..]
    ensures Split(Join(words, SPACE)) == words
  {
    var rest := words[1..];
    var tail := Join(rest, SPACE);
    assert Join(words, SPACE) == words[0] + [SPACE] + tail by {
      JoinCons(words, SPACE);
    }
    assert Split(words[0] + [SPACE] + tail) == [words[0]] + rest by {
      JoinHead(rest, SPACE);
      SplitCons(words[0], tail);
    }
    assert [words[0]] + rest == words;
  }

  // ---------------------------------------------------------------------------
  // int() and str() of integers
  // ---------------------------------------------------------------------------

  function DigitValue(b: byte): nat
    requires IsDigit(b)
  {
    (b - 48) as nat
  }

  predicate DigitsOrUnderscores(s: Bytes)
  {
    forall i :: 0 <= i < |s| ==> IsDigit(s[i]) || s[i] == UNDERSCORE
  }

  /** The body of a decimal literal as `int()` accepts it: digits, each underscore
      standing alone between two digits. */
  predicate IsNumeral(s: Bytes)
  {
    && s != []
    && DigitsOrUnderscores(s)
    && IsDigit(s[0]) && IsDigit(s[|s| - 1])
    && forall i :: 0 <= i < |s| - 1 ==> !(s[i] == UNDERSCORE && s[i + 1] == UNDERSCORE)
  }

  /** The value of a decimal numeral, underscores ignored. */
  function NumeralValue(s: Bytes): nat
    requires DigitsOrUnderscores(s)
  {
    if s == [] then 0
    else if s[|s| - 1] == UNDERSCORE then NumeralValue(s[..|s| - 1])
    else 10 * NumeralValue(s[..|s| - 1]) + DigitValue(s[|s| - 1])
  }

  /** Python's `int(s)` in base 10: surrounding whitespace, an optional sign, then a
      numeral. `None` stands for the `ValueError` it raises otherwise. On a `str`
      as on `bytes`, `int()` skips only the bytes whitespace (tab to carriage
      return and space), never the separators 0x1C-0x1F that `str.strip` drops. */
  function ParseInt(s: Bytes): (r: Option<int>)
    ensures IsDigits(s) ==> r == Some(NumeralValue(s) as int)
    ensures r.Some? && r.value < 0 ==> MINUS in s
  {
    var t := Strip(s, false);
    StripHead(s, false);
    DigitsNumeral(s, false);
    if t != [] && (t[0] == MINUS || t[0] == PLUS) then
      var body := t[1..];
      if IsNumeral(body) then
        Some(if t[0] == MINUS then -(NumeralValue(body) as int) else NumeralValue(body) as int)
      else None
    else if IsNumeral(t) then Some(NumeralValue(t) as int)
    else None
  }

  /** A text that starts with one of the separators 0x1C-0x1F is no integer,
      although `str.strip` would remove that byte. */
  lemma ParseIntSeparator(s: Bytes)
    requires s != [] && 28 <= s[0] <= 31
    ensures ParseInt(s).None? && Strip(s, true) != s
  {
    StripKeepsHead(s);
    var t := Strip(s, false);
    assert !IsDigit(t[0]) && t[0] != MINUS && t[0] != PLUS;
  }

  /** `bytes.strip` keeps a first byte that is not bytes whitespace. */
  lemma StripKeepsHead(s: Bytes)
    requires s != [] && !IsByteSpace(s[0])
    ensures Strip(s, false) != [] && Strip(s, false)[0] == s[0]
  {
    assert LStrip(s, false) == s;
    assert !IsSpace(s[0], false);
  }

  /** The first byte left by stripping is a byte of the text. */
  lemma StripHead(s: Bytes, isText: bool)
    ensures Strip(s, isText) != [] ==> Strip(s, isText)[0] in s
  {
    var l := LStrip(s, isText);
    if Strip(s, isText) != [] {
      assert Strip(s, isText)[0] == l[0] == s[|s| - |l|];
    }
  }

  /** An all-digit text needs no stripping and is a numeral. */
  lemma DigitsNumeral(s: Bytes, isText: bool)
    ensures IsDigits(s) ==> Strip(s, isText) == s && IsNumeral(s)
  {
    if IsDigits(s) {
      StripUnpadded(s, isText);
    }
  }

  /** The decimal digits of `n`, without leading zeros. */
  function ShowNat(n: nat): (r: Bytes)
    ensures IsDigits(r)
  {
    if n < 10 then [(48 + n) as byte] else ShowNat(n / 10) + [(48 + n % 10) as byte]
  }

  /** Python's `str(i)` for an integer. */
  function Show(i: int): (r: Bytes)
    ensures r != [] && NoSpace(r)
    ensures forall k :: 0 <= k < |r| ==> IsDigit(r[k]) || r[k] == MINUS
  {
    if i < 0 then [MINUS] + ShowNat(-i) else ShowNat(i)
  }

  /** `str(i)` is ASCII text. */
  lemma ShowAscii(i: int)
    ensures IsAscii(Show(i))
  {
  }

  /** `str(i)` holds no byte other than digits and the minus sign. */
  lemma NotInShow(i: int, b: byte)
    requires !IsDigit(b) && b != MINUS
    ensures b !in Show(i)
  {
  }

  lemma {:induction false} NumeralValueShowNat(n: nat)
    ensures IsNumeral(ShowNat(n))
    ensures NumeralValue(ShowNat(n)) == n
  {
    if n >= 10 {
      NumeralValueShowNat(n / 10);
      var s := ShowNat(n);
      assert s[..|s| - 1] == ShowNat(n / 10);
    }
  }

  /** `int(str(i)) == i`, whether the text is read as `str` or as `bytes`. */
  lemma ParseShow(i: int)
    ensures ParseInt(Show(i)) == Some(i)
  {
    var s := Show(i);
    assert Strip(s, false) == s by {
      StripUnpadded(s, false);
    }
    if i < 0 {
      var body := ShowNat(-i);
      assert s == [MINUS] + body;
      assert s[1..] == body;
      NumeralValueShowNat(-i);
      assert IsNumeral(body) && NumeralValue(body) == -i;
    } else {
      NumeralValueShowNat(i);
      assert s[0] != MINUS && s[0] != PLUS;
      assert IsNumeral(s) && NumeralValue(s) == i;
    }
  }

  /** `str(i).isdigit()` holds exactly for the non-negative integers. */
  lemma ShowIsDigits(i: int)
    ensures IsDigits(Show(i)) <==> i >= 0
  {
    if i < 0 {
      assert Show(i)[0] == MINUS;
    }
  }

  // ---------------------------------------------------------------------------
  // UTF-8
  // ---------------------------------------------------------------------------

  predicate IsContinuation(b: byte)
  {
    0x80 <= b <= 0xBF
  }

  /** Length of the well-formed UTF-8 encoding of one character at the head of `s`,
      or 0 when the head is not one (Unicode's table of well-formed byte sequences:
      no overlong forms, no surrogates, nothing above U+10FFFF). */
  function CharLen(s: Bytes): (n: nat)
    ensures n <= |s| && n <= 4
  {
    if s == [] then 0
    else if s[0] < 0x80 then 1
    else if 0xC2 <= s[0] <= 0xDF then
      if |s| >= 2 && IsContinuation(s[1]) then 2 else 0
    else if 0xE0 <= s[0] <= 0xEF then
      if |s| >= 3 && IsContinuation(s[2])
         && (if s[0] == 0xE0 then 0xA0 <= s[1] <= 0xBF
             else if s[0] == 0xED then 0x80 <= s[1] <= 0x9F
             else IsContinuation(s[1]))
      then 3 else 0
    else if 0xF0 <= s[0] <= 0xF4 then
      if |s| >= 4 && IsContinuation(s[2]) && IsContinuation(s[3])
         && (if s[0] == 0xF0 then 0x90 <= s[1] <= 0xBF
             else if s[0] == 0xF4 then 0x80 <= s[1] <= 0x8F
             else IsContinuation(s[1]))
      then 4 else 0
    else 0
  }

  predicate IsAscii(s: Bytes)
  {
    forall i :: 0 <= i < |s| ==> s[i] < 0x80
  }

  /** `s.decode()` succeeds. */
  predicate ValidUtf8(s: Bytes)
    ensures IsAscii(s) ==> ValidUtf8(s)
    decreases |s|
  {
    s == [] || (CharLen(s) > 0 && ValidUtf8(s[CharLen(s)..]))
  }

  lemma CharLenPrefix(a: Bytes, b: Bytes)
    requires CharLen(a) > 0
    ensures CharLen(a + b) == CharLen(a)
  {
    var s := a + b;
    assert s[0] == a[0];
    if |a| >= 2 { assert s[1] == a[1]; }
    if |a| >= 3 { assert s[2] == a[2]; }
    if |a| >= 4 { assert s[3] == a[3]; }
  }

  /** Well-formed UTF-8 texts concatenate to well-formed UTF-8. */
  lemma {:induction false} ValidUtf8Concat(a: Bytes, b: Bytes)
    requires ValidUtf8(a) && ValidUtf8(b)
    ensures ValidUtf8(a + b)
    decreases |a|
  {
    if a == [] {
      assert a + b == b;
    } else {
      var n := CharLen(a);
      CharLenPrefix(a, b);
      assert (a + b)[n..] == a[n..] + b;
      ValidUtf8Concat(a[n..], b);
    }
  }

}
