/**
 * The Python string builtins that the scanner, the blocker and the database
 * manager rely on, written over `string` (= `seq<char>`): `upper`, `split`
 * (with and without a separator), `strip`, `find`/`in`, `replace`,
 * `startswith`, `count`, `str(n)`, `int(s)`, `bytes.fromhex` and Python's
 * code-point ordering of strings.
 */
module Text {
  import opened Wrappers

  /** Python truthiness of an optional string: present and not empty. */
  predicate Truthy(s: Option<string>) {
    s.Some? && s.value != ""
  }

  // ---------------------------------------------------------------------
  // Characters

  /** Python's `str.isspace()` for one character. */
  predicate IsSpace(c: char) {
    || c == ' '
    || ('\t' <= c <= '\r')
    || ('\U{1C}' <= c <= '\U{1F}')
    || c == '\U{85}' || c == '\U{A0}' || c == '\U{1680}'
    || ('\U{2000}' <= c <= '\U{200A}')
    || c == '\U{2028}' || c == '\U{2029}' || c == '\U{202F}' || c == '\U{205F}' || c == '\U{3000}'
  }

  predicate IsDigit(c: char) {
    '0' <= c <= '9'
  }

  /** Python's `str.upper()` on one ASCII character; other characters are kept. */
  function UpperChar(c: char): char {
    if 'a' <= c <= 'z' then (c as int - 32) as char else c
  }

  function Upper(s: string): string {
    seq(|s|, i requires 0 <= i < |s| => UpperChar(s[i]))
  }

  /** Python's `a.upper() == b.upper()`. */
  predicate EqualIgnoringCase(a: string, b: string) {
    Upper(a) == Upper(b)
  }

  lemma UpperIdempotent(s: string)
    ensures Upper(Upper(s)) == Upper(s)
  {
  }

  lemma UpperPrefix(s: string, n: nat)
    requires n <= |s|
    ensures Upper(s[..n]) == Upper(s)[..n]
  {
  }

  // ---------------------------------------------------------------------
  // Searching

  /** `s` starts with `p` (Python's `s.startswith(p)`). */
  predicate StartsWith(s: string, p: string) {
    |p| <= |s| && s[..|p|] == p
  }

  /** `sub` occurs in `s` at index `j`. */
  predicate OccursAt(s: string, sub: string, j: nat) {
    j + |sub| <= |s| && s[j..j + |sub|] == sub
  }

  /** Python's `s.find(sub)`, with `None` for `-1`: the first index where `sub` occurs. */
  function Find(s: string, sub: string): (r: Option<nat>)
    ensures r.Some? ==> OccursAt(s, sub, r.value)
    ensures r.Some? ==> forall j: nat :: j < r.value ==> !OccursAt(s, sub, j)
    ensures r.None? ==> forall j: nat :: !OccursAt(s, sub, j)
    decreases |s|
  {
    if |sub| > |s| then None
    else if s[..|sub|] == sub then Some(0)
    else
      var rest := Find(s[1..], sub);
      assert !OccursAt(s, sub, 0);
      assert forall j: nat :: j >= 1 ==> (OccursAt(s, sub, j) <==> OccursAt(s[1..], sub, j - 1));
      match rest
      case None => None
      case Some(k) => Some(k + 1)
  }

  /** Python's `sub in s`. */
  predicate Contains(s: string, sub: string) {
    Find(s, sub).Some?
  }

  lemma ContainsIff(s: string, sub: string)
    ensures Contains(s, sub) <==> exists j: nat :: OccursAt(s, sub, j)
  {
  }

  /** Python's `s.count(c)` for a one-character `c`. */
  function CountChar(s: string, c: char): nat {
    |set i | 0 <= i < |s| && s[i] == c|
  }

  /** Python's `s.replace(a, b)` for one-character `a` and `b`. */
  function Replace(s: string, a: char, b: char): string {
    seq(|s|, i requires 0 <= i < |s| => if s[i] == a then b else s[i])
  }

  // ---------------------------------------------------------------------
  // Splitting, joining, stripping

  /** No character of `s` is whitespace. */
  predicate NoSpace(s: string) {
    forall i :: 0 <= i < |s| ==> !IsSpace(s[i])
  }

  /** Length of the leading run of non-whitespace characters of `s`. */
  function TokenLen(s: string): (n: nat)
    ensures n <= |s|
    ensures NoSpace(s[..n])
    ensures n < |s| ==> IsSpace(s[n])
  {
    if s == [] || IsSpace(s[0]) then 0
    else
      var m := TokenLen(s[1..]);
      assert s[..m + 1] == [s[0]] + s[1..][..m];
      m + 1
  }

  /** Python's `s.split()` with no argument: the maximal runs of non-whitespace characters. */
  function Split(s: string): (r: seq<string>)
    ensures forall k :: 0 <= k < |r| ==> r[k] != [] && NoSpace(r[k])
    decreases |s|
  {
    if s == [] then []
    else if IsSpace(s[0]) then Split(s[1..])
    else
      var n := TokenLen(s);
      [s[..n]] + Split(s[n..])
  }

  /** Python's `sep.join(parts)`. */
  function Join(parts: seq<string>, sep: string): string
    decreases |parts|
  {
    if parts == [] then ""
    else if |parts| == 1 then parts[0]
    else parts[0] + sep + Join(parts[1..], sep)
  }

  /** Joining a list of two or more parts puts the separator after the first. */
  lemma JoinCons(p: string, rest: seq<string>, sep: string)
    requires rest != []
    ensures Join([p] + rest, sep) == p + sep + Join(rest, sep)
  {
    assert ([p] + rest)[1..] == rest;
  }

  /** Python's `s.split(sep)` for a non-empty separator `sep`. */
  function SplitOn(s: string, sep: string): (r: seq<string>)
    requires sep != []
    ensures |r| >= 1
    ensures forall k :: 0 <= k < |r| ==> !Contains(r[k], sep)
    decreases |s|
  {
    match Find(s, sep)
    case None => [s]
    case Some(i) =>
      var head := s[..i];
      assert forall j: nat :: OccursAt(head, sep, j) ==> OccursAt(s, sep, j);
      [head] + SplitOn(s[i + |sep|..], sep)
  }

  /** Joining the pieces of `s.split(sep)` with `sep` gives back `s`. */
  lemma {:induction false} JoinSplitOn(s: string, sep: string)
    requires sep != []
    ensures Join(SplitOn(s, sep), sep) == s
    decreases |s|
  {
    match Find(s, sep)
    case None =>
    case Some(i) =>
      var tail := s[i + |sep|..];
      var parts := SplitOn(tail, sep);
      JoinSplitOn(tail, sep);
      assert SplitOn(s, sep) == [s[..i]] + parts;
      assert ([s[..i]] + parts)[1..] == parts;
      assert Join([s[..i]] + parts, sep) == s[..i] + sep + Join(parts, sep);
      assert s == s[..i] + sep + tail;
  }

  /** Splitting a join on a one-character separator that no part contains gives back the parts. */
  lemma {:induction false} SplitOnJoin(parts: seq<string>, c: char)
    requires parts != []
    requires forall k :: 0 <= k < |parts| ==> c !in parts[k]
    ensures SplitOn(Join(parts, [c]), [c]) == parts
    decreases |parts|
  {
    if |parts| == 1 {
      FindAbsentChar(parts[0], c);
    } else {
      var p := parts[0];
      var rest := Join(parts[1..], [c]);
      var s := p + [c] + rest;
      assert Join(parts, [c]) == s;
      FindFirstOfChar(p, c, rest);
      assert s[|p| + 1..] == rest;
      SplitOnJoin(parts[1..], c);
      assert s[..|p|] == p;
      assert parts == [p] + parts[1..];
    }
  }

  lemma FindAbsentChar(s: string, c: char)
    requires c !in s
    ensures Find(s, [c]).None?
  {
    forall j: nat | j + 1 <= |s| ensures !OccursAt(s, [c], j) {
      assert s[j..j + 1] == [s[j]];
    }
  }

  lemma FindFirstOfChar(p: string, c: char, rest: string)
    requires c !in p
    ensures Find(p + [c] + rest, [c]) == Some(|p|)
  {
    var s := p + [c] + rest;
    assert OccursAt(s, [c], |p|);
    forall j: nat | j < |p| ensures !OccursAt(s, [c], j) {
      assert s[j..j + 1] == [p[j]];
    }
  }

  /** `c !in s` when `s` is one of the pieces `SplitOn` cut at `c`. */
  lemma SplitOnPartsLackChar(s: string, c: char)
    ensures forall k :: 0 <= k < |SplitOn(s, [c])| ==> c !in SplitOn(s, [c])[k]
  {
    var parts := SplitOn(s, [c]);
    forall k | 0 <= k < |parts| ensures c !in parts[k] {
      if c in parts[k] {
        var j :| 0 <= j < |parts[k]| && parts[k][j] == c;
        assert OccursAt(parts[k], [c], j);
      }
    }
  }

  /** A run of non-whitespace followed by whitespace ends the first token. */
  lemma TokenLenOfToken(t: string, c: char, rest: string)
    requires t != [] && NoSpace(t) && IsSpace(c)
    ensures TokenLen(t + [c] + rest) == |t|
    decreases |t|
  {
    if |t| > 1 {
      assert (t + [c] + rest)[1..] == t[1..] + [c] + rest;
      TokenLenOfToken(t[1..], c, rest);
    } else {
      assert (t + [c] + rest)[1..] == [c] + rest;
    }
  }

  lemma TokenLenWhole(t: string)
    requires NoSpace(t)
    ensures TokenLen(t) == |t|
    decreases |t|
  {
    if t != [] {
      TokenLenWhole(t[1..]);
    }
  }

  /** Splitting tokens joined by single spaces gives back the tokens. */
  lemma {:induction false} SplitJoin(tokens: seq<string>)
    requires forall k :: 0 <= k < |tokens| ==> tokens[k] != [] && NoSpace(tokens[k])
    ensures Split(Join(tokens, " ")) == tokens
    decreases |tokens|
  {
    if tokens == [] {
    } else if |tokens| == 1 {
      var t := tokens[0];
      TokenLenWhole(t);
      assert t[..|t|] == t;
      assert t[|t|..] == [];
      assert Split(t) == [t] + Split([]);
    } else {
      var t := tokens[0];
      var rest := Join(tokens[1..], " ");
      var s := t + " " + rest;
      assert Join(tokens, " ") == s;
      TokenLenOfToken(t, ' ', rest);
      assert s[..|t|] == t;
      assert s[|t|..] == [' '] + rest;
      assert ([' '] + rest)[1..] == rest;
      SplitJoin(tokens[1..]);
      assert tokens == [t] + tokens[1..];
    }
  }

  /** Python's `s.lstrip()`. */
  function LStrip(s: string): (r: string)
    ensures r == [] || !IsSpace(r[0])
    decreases |s|
  {
    if s != [] && IsSpace(s[0]) then LStrip(s[1..]) else s
  }

  /** Python's `s.rstrip()`. */
  function RStrip(s: string): (r: string)
    ensures r == [] || !IsSpace(r[|r| - 1])
    decreases |s|
  {
    if s != [] && IsSpace(s[|s| - 1]) then RStrip(s[..|s| - 1]) else s
  }

  lemma RStripKeepsHead(s: string)
    requires s == [] || !IsSpace(s[0])
    ensures RStrip(s) == [] || !IsSpace(RStrip(s)[0])
    decreases |s|
  {
    if s != [] && IsSpace(s[|s| - 1]) {
      RStripKeepsHead(s[..|s| - 1]);
    }
  }

  /** Python's `s.strip()`: no whitespace is left at either end. */
  function Strip(s: string): (r: string)
    ensures r == [] || (!IsSpace(r[0]) && !IsSpace(r[|r| - 1]))
  {
    RStripKeepsHead(LStrip(s));
    RStrip(LStrip(s))
  }

  /** Leading whitespace is what `lstrip()` removes. */
  lemma {:induction false} LStripSpaces(w: string, s: string)
    requires forall i :: 0 <= i < |w| ==> IsSpace(w[i])
    requires s == [] || !IsSpace(s[0])
    ensures LStrip(w + s) == s
    decreases |w|
  {
    if w != [] {
      assert (w + s)[1..] == w[1..] + s;
      LStripSpaces(w[1..], s);
    }
  }

  /** Trailing whitespace is what `rstrip()` removes. */
  lemma {:induction false} RStripSpaces(s: string, w: string)
    requires forall i :: 0 <= i < |w| ==> IsSpace(w[i])
    requires s == [] || !IsSpace(s[|s| - 1])
    ensures RStrip(s + w) == s
    decreases |w|
  {
    if w != [] {
      assert (s + w)[..|s + w| - 1] == s + w[..|w| - 1];
      RStripSpaces(s, w[..|w| - 1]);
    } else {
      assert s + w == s;
    }
  }

  /** `strip()` removes exactly the whitespace around a text that has none at its ends. */
  lemma StripPadded(w1: string, core: string, w2: string)
    requires forall i :: 0 <= i < |w1| ==> IsSpace(w1[i])
    requires forall i :: 0 <= i < |w2| ==> IsSpace(w2[i])
    requires core != [] && !IsSpace(core[0]) && !IsSpace(core[|core| - 1])
    ensures Strip(w1 + core + w2) == core
  {
    assert w1 + core + w2 == w1 + (core + w2);
    LStripSpaces(w1, core + w2);
    RStripSpaces(core, w2);
  }

  /** A string with no whitespace at either end is its own `strip()`. */
  lemma StripTrimmed(s: string)
    requires s == [] || (!IsSpace(s[0]) && !IsSpace(s[|s| - 1]))
    ensures Strip(s) == s
  {
  }

  /** A space-joined line of tokens starts with the first token and ends with the last. */
  lemma {:induction false} JoinEnds(tokens: seq<string>, sep: string)
    requires tokens != [] && forall k :: 0 <= k < |tokens| ==> tokens[k] != []
    ensures var s := Join(tokens, sep);
            s != [] && s[0] == tokens[0][0] && s[|s| - 1] == tokens[|tokens| - 1][|tokens[|tokens| - 1]| - 1]
    decreases |tokens|
  {
    if |tokens| > 1 {
      JoinEnds(tokens[1..], sep);
    }
  }

  /** Trimming a space-joined line of tokens, then splitting it, gives back the tokens. */
  lemma SplitStripJoin(tokens: seq<string>)
    requires forall k :: 0 <= k < |tokens| ==> tokens[k] != [] && NoSpace(tokens[k])
    ensures Split(Strip(Join(tokens, " "))) == tokens
  {
    if tokens != [] {
      JoinEnds(tokens, " ");
      StripTrimmed(Join(tokens, " "));
    }
    SplitJoin(tokens);
  }

  /** Replacing the separator of a join, when no part holds it, is joining with the new one. */
  lemma {:induction false} ReplaceJoin(parts: seq<string>, a: char, b: char)
    requires forall k :: 0 <= k < |parts| ==> a !in parts[k]
    ensures Replace(Join(parts, [a]), a, b) == Join(parts, [b])
    decreases |parts|
  {
    if |parts| > 1 {
      ReplaceJoin(parts[1..], a, b);
      ReplaceConcat(parts[0], [a], a, b);
      ReplaceConcat(parts[0] + [a], Join(parts[1..], [a]), a, b);
      assert Replace(parts[0], a, b) == parts[0];
    } else if |parts| == 1 {
      assert Replace(parts[0], a, b) == parts[0];
    }
  }

  lemma ReplaceConcat(x: string, y: string, a: char, b: char)
    ensures Replace(x + y, a, b) == Replace(x, a, b) + Replace(y, a, b)
  {
  }

  lemma StripNoSpace(s: string)
    requires NoSpace(s)
    ensures Strip(s) == s
  {
  }

  // ---------------------------------------------------------------------
  // Decimal numbers

  function DigitChar(d: nat): (c: char)
    requires d < 10
    ensures IsDigit(c)
  {
    ('0' as int + d) as char
  }

  function DigitValue(c: char): (d: nat)
    requires IsDigit(c)
    ensures d < 10
  {
    c as int - '0' as int
  }

  predicate AllDigits(s: string) {
    forall i :: 0 <= i < |s| ==> IsDigit(s[i])
  }

  /** Python's `str(n)` for a natural number: its decimal digits, without a leading zero. */
  function NatToString(n: nat): (r: string)
    ensures r != [] && AllDigits(r)
    ensures n >= 10 ==> r[0] != '0'
    decreases n
  {
    if n < 10 then [DigitChar(n)] else NatToString(n / 10) + [DigitChar(n % 10)]
  }

  /** The value of a string of decimal digits. */
  function DigitsValue(s: string): nat
    requires AllDigits(s)
    decreases |s|
  {
    if s == [] then 0 else DigitsValue(s[..|s| - 1]) * 10 + DigitValue(s[|s| - 1])
  }

  /** Reading back the decimal rendering of `n` gives `n`. */
  lemma {:induction false} DigitsValueOfNatToString(n: nat)
    ensures DigitsValue(NatToString(n)) == n
    decreases n
  {
    if n >= 10 {
      var s := NatToString(n);
      DigitsValueOfNatToString(n / 10);
      assert s[..|s| - 1] == NatToString(n / 10);
    }
  }

  lemma NatToStringInjective(m: nat, n: nat)
    requires NatToString(m) == NatToString(n)
    ensures m == n
  {
    DigitsValueOfNatToString(m);
    DigitsValueOfNatToString(n);
  }

  /** The digits of `s` with the underscores taken out. */
  function WithoutUnderscores(s: string): string
    decreases |s|
  {
    if s == [] then [] else (if s[0] == '_' then [] else [s[0]]) + WithoutUnderscores(s[1..])
  }

  lemma WithoutUnderscoresDigits(s: string)
    requires forall i :: 0 <= i < |s| ==> IsDigit(s[i]) || s[i] == '_'
    ensures AllDigits(WithoutUnderscores(s))
    decreases |s|
  {
    if s != [] {
      WithoutUnderscoresDigits(s[1..]);
    }
  }

  lemma WithoutUnderscoresOfDigits(s: string)
    requires AllDigits(s)
    ensures WithoutUnderscores(s) == s
    decreases |s|
  {
    if s != [] {
      WithoutUnderscoresOfDigits(s[1..]);
    }
  }

  /** The body of a Python integer literal: digits, with single underscores between digits. */
  predicate IntBody(s: string) {
    && s != []
    && IsDigit(s[0]) && IsDigit(s[|s| - 1])
    && (forall i :: 0 <= i < |s| ==> IsDigit(s[i]) || s[i] == '_')
    && (forall i :: 0 <= i < |s| - 1 ==> !(s[i] == '_' && s[i + 1] == '_'))
  }

  function ParseUnsigned(s: string): (r: Option<nat>)
    ensures r.Some? <==> IntBody(s)
  {
    if IntBody(s) then
      WithoutUnderscoresDigits(s);
      Some(DigitsValue(WithoutUnderscores(s)))
    else None
  }

  /**
   * Python's `int(s)` on a string with no surrounding whitespace: an optional
   * sign, then an integer body; `None` where Python raises `ValueError`.
   */
  function ParseInt(s: string): (r: Option<int>)
    ensures r.Some? <==> (IntBody(s) || (s != [] && (s[0] == '+' || s[0] == '-') && IntBody(s[1..])))
  {
    if s != [] && (s[0] == '+' || s[0] == '-') then
      match ParseUnsigned(s[1..])
      case None => None
      case Some(v) =>
        var i: int := if s[0] == '-' then -(v as int) else v;
        Some(i)
    else
      match ParseUnsigned(s)
      case None => None
      case Some(v) => Some(v)
  }

  /** `int(str(n)) == n`. */
  lemma ParseIntOfNatToString(n: nat)
    ensures ParseInt(NatToString(n)) == Some(n)
  {
    var s := NatToString(n);
    WithoutUnderscoresOfDigits(s);
    DigitsValueOfNatToString(n);
  }

  // ---------------------------------------------------------------------
  // Hexadecimal

  predicate IsLowerHexChar(c: char) {
    ('0' <= c <= '9') || ('a' <= c <= 'f')
  }

  /** The lower-case hexadecimal digit for `v`, as `format(v, "x")` writes it. */
  function HexDigit(v: nat): (c: char)
    requires v < 16
    ensures IsLowerHexChar(c)
  {
    if v < 10 then ('0' as int + v) as char else ('a' as int + v - 10) as char
  }

  /** The value of one hexadecimal digit, either case. */
  function HexValue(c: char): (r: Option<nat>)
    ensures r.Some? ==> r.value < 16
  {
    if '0' <= c <= '9' then Some(c as int - '0' as int)
    else if 'a' <= c <= 'f' then Some(c as int - 'a' as int + 10)
    else if 'A' <= c <= 'F' then Some(c as int - 'A' as int + 10)
    else None
  }

  lemma HexValueOfHexDigit(v: nat)
    requires v < 16
    ensures HexValue(HexDigit(v)) == Some(v)
    ensures HexValue(UpperChar(HexDigit(v))) == Some(v)
  {
  }

  /**
   * Python's `bytes.fromhex(s)` on a string without whitespace: pairs of
   * hexadecimal digits; `None` where Python raises `ValueError`.
   */
  function FromHex(s: string): (r: Option<seq<nat>>)
    ensures r.Some? ==> 2 * |r.value| == |s| && forall k :: 0 <= k < |r.value| ==> r.value[k] < 256
    decreases |s|
  {
    if s == [] then Some([])
    else if |s| == 1 then None
    else
      match (HexValue(s[0]), HexValue(s[1]), FromHex(s[2..]))
      case (Some(hi), Some(lo), Some(rest)) => Some([hi * 16 + lo] + rest)
      case _ => None
  }

  /** Two lower-case hexadecimal digits for a byte. */
  function HexByte(b: nat): string
    requires b < 256
  {
    [HexDigit(b / 16), HexDigit(b % 16)]
  }

  /** `bytes(bs).hex()`: two digits per byte, in order. */
  function HexBytes(bs: seq<nat>): (r: string)
    requires forall k :: 0 <= k < |bs| ==> bs[k] < 256
    ensures |r| == 2 * |bs|
  {
    if bs == [] then [] else HexByte(bs[0]) + HexBytes(bs[1..])
  }

  lemma {:induction false} HexBytesAreHex(bs: seq<nat>)
    requires forall k :: 0 <= k < |bs| ==> bs[k] < 256
    ensures forall i :: 0 <= i < |HexBytes(bs)| ==> IsLowerHexChar(HexBytes(bs)[i])
    decreases |bs|
  {
    if bs != [] {
      HexBytesAreHex(bs[1..]);
      var s := HexBytes(bs);
      assert s == HexByte(bs[0]) + HexBytes(bs[1..]);
      forall i | 2 <= i < |s| ensures IsLowerHexChar(s[i]) {
        assert s[i] == HexBytes(bs[1..])[i - 2];
      }
    }
  }

  /** `bytes.fromhex(bytes(bs).hex()) == bytes(bs)`. */
  lemma {:induction false} FromHexOfHexBytes(bs: seq<nat>)
    requires forall k :: 0 <= k < |bs| ==> bs[k] < 256
    ensures FromHex(HexBytes(bs)) == Some(bs)
    decreases |bs|
  {
    if bs != [] {
      var s := HexBytes(bs);
      var hi, lo := bs[0] / 16, bs[0] % 16;
      FromHexOfHexBytes(bs[1..]);
      HexValueOfHexDigit(hi);
      HexValueOfHexDigit(lo);
      assert s[0] == HexDigit(hi) && s[1] == HexDigit(lo);
      assert s[2..] == HexBytes(bs[1..]);
      FromHexStep(s, hi, lo, bs[1..]);
      assert hi * 16 + lo == bs[0];
      assert bs == [bs[0]] + bs[1..];
    }
  }

  lemma FromHexStep(s: string, hi: nat, lo: nat, rest: seq<nat>)
    requires |s| >= 2 && HexValue(s[0]) == Some(hi) && HexValue(s[1]) == Some(lo) && FromHex(s[2..]) == Some(rest)
    ensures FromHex(s) == Some([hi * 16 + lo] + rest)
  {
  }

  // ---------------------------------------------------------------------
  // Python's ordering of strings (code point by code point)

  /** Python's `a < b` on strings. */
  predicate StrLt(a: string, b: string)
    decreases |a|
  {
    if a == [] then b != []
    else if b == [] then false
    else if a[0] != b[0] then a[0] < b[0]
    else StrLt(a[1..], b[1..])
  }

  /** Python's `a <= b` on strings. */
  predicate StrLe(a: string, b: string) {
    a == b || StrLt(a, b)
  }

  /** Comparing two strings with a common prefix compares what follows it. */
  lemma {:induction false} StrLtCommonPrefix(p: string, x: string, y: string)
    ensures StrLt(p + x, p + y) <==> StrLt(x, y)
    decreases |p|
  {
    if p == [] {
      assert p + x == x && p + y == y;
    } else {
      assert (p + x)[0] == p[0] == (p + y)[0];
      assert (p + x)[1..] == p[1..] + x;
      assert (p + y)[1..] == p[1..] + y;
      StrLtCommonPrefix(p[1..], x, y);
    }
  }

  lemma {:induction false} StrLtTransitive(a: string, b: string, c: string)
    requires StrLt(a, b) && StrLt(b, c)
    ensures StrLt(a, c)
    decreases |a|
  {
    if a != [] && b != [] && c != [] && a[0] == b[0] && b[0] == c[0] {
      StrLtTransitive(a[1..], b[1..], c[1..]);
    }
  }

  lemma {:induction false} StrLtTotal(a: string, b: string)
    ensures a == b || StrLt(a, b) || StrLt(b, a)
    ensures !(StrLt(a, b) && StrLt(b, a))
    decreases |a|
  {
    if a != [] && b != [] && a[0] == b[0] {
      StrLtTotal(a[1..], b[1..]);
      if a[1..] == b[1..] {
        assert a == [a[0]] + a[1..] && b == [b[0]] + b[1..];
      }
    }
  }

  lemma {:induction false} StrLtIrreflexive(a: string)
    ensures !StrLt(a, a)
    decreases |a|
  {
    if a != [] {
      StrLtIrreflexive(a[1..]);
    }
  }

  /** Strings of equal length compared first decide the order of their extensions. */
  lemma {:induction false} StrLtAppend(x: string, y: string, r1: string, r2: string)
    requires |x| == |y| && StrLt(x, y)
    ensures StrLt(x + r1, y + r2)
    decreases |x|
  {
    assert (x + r1)[0] == x[0] && (y + r2)[0] == y[0];
    if x[0] == y[0] {
      assert (x + r1)[1..] == x[1..] + r1;
      assert (y + r2)[1..] == y[1..] + r2;
      StrLtAppend(x[1..], y[1..], r1, r2);
    }
  }

  /** `<=` on equal-length heads and on the tails gives `<=` on the concatenations. */
  lemma StrLeAppend(x: string, y: string, r1: string, r2: string)
    requires |x| == |y| && StrLe(x, y) && StrLe(r1, r2)
    ensures StrLe(x + r1, y + r2)
  {
    if x == y {
      if r1 != r2 {
        StrLtCommonPrefix(x, r1, r2);
      }
    } else {
      StrLtAppend(x, y, r1, r2);
    }
  }
}
