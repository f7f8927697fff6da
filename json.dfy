/**
 * The JSON records the manifest holds: a Python dict of strings, integers and
 * `None`, kept in insertion order, and the one-line text `json.dumps` writes for it
 * with its defaults (`ensure_ascii=True`, separators `", "` and `": "`).
 */
module Json {
  import opened Wrappers
  import Decimal
  import Seqs

  datatype Value = Null | Int(i: int) | Str(s: string)

  /** A dict as its items in insertion order. */
  type Dict = seq<(string, Value)>

  function Keys(d: Dict): seq<string>
  {
    if d == [] then [] else [d[0].0] + Keys(d[1..])
  }

  /** `d.get(k)`. */
  function Get(d: Dict, k: string): (r: Option<Value>)
    ensures r.Some? <==> k in Keys(d)
  {
    if d == [] then None else if d[0].0 == k then Some(d[0].1) else Get(d[1..], k)
  }

  /**
   * `d[k] = v`: an existing key keeps its place and takes the new value,
   * a new key goes to the end; every other key keeps its value.
   */
  function Set(d: Dict, k: string, v: Value): (r: Dict)
    ensures Get(r, k) == Some(v)
    ensures forall k' :: k' != k ==> Get(r, k') == Get(d, k')
  {
    if d == [] then [(k, v)]
    else if d[0].0 == k then [(k, v)] + d[1..]
    else [d[0]] + Set(d[1..], k, v)
  }

  lemma {:induction false} SetKeys(d: Dict, k: string, v: Value)
    ensures Keys(Set(d, k, v)) == if k in Keys(d) then Keys(d) else Keys(d) + [k]
  {
    if d != [] && d[0].0 != k {
      SetKeys(d[1..], k, v);
      assert Keys(Set(d, k, v)) == [d[0].0] + Keys(Set(d[1..], k, v));
    }
  }

  /** No key occurs twice, as in a Python dict. */
  predicate UniqueKeys(d: Dict)
  {
    forall i, j :: 0 <= i < j < |Keys(d)| ==> Keys(d)[i] != Keys(d)[j]
  }

  /** Assignment keeps a dict's keys distinct. */
  lemma SetUnique(d: Dict, k: string, v: Value)
    requires UniqueKeys(d)
    ensures UniqueKeys(Set(d, k, v))
  {
    SetKeys(d, k, v);
    var ks := Keys(d);
    if k !in ks {
      assert forall i :: 0 <= i < |ks| ==> (ks + [k])[i] == ks[i];
    }
  }

  /** Assignment keeps the existing keys at the front, in their order. */
  lemma SetKeepsOrder(d: Dict, k: string, v: Value)
    ensures |Keys(d)| <= |Keys(Set(d, k, v))| && Keys(Set(d, k, v))[..|Keys(d)|] == Keys(d)
  {
    SetKeys(d, k, v);
  }

  // ---------------------------------------------------------------------------
  // Writing: json.dumps

  /** Every character is printable ASCII, `' '` to `'~'`: in particular no newline. */
  predicate Printable(s: string) { forall i :: 0 <= i < |s| ==> ' ' <= s[i] <= '~' }

  function HexDigit(d: nat): (c: char)
    requires d < 16
    ensures '0' <= c <= '9' || 'a' <= c <= 'f'
  {
    if d < 10 then ('0' as int + d) as char else ('a' as int + d - 10) as char
  }

  /** Four lower-case hex digits, as `'{0:04x}'.format(n)`. */
  function Hex4(n: nat): (s: string)
    requires n < 0x1_0000
    ensures |s| == 4
  {
    [HexDigit(n / 16 / 16 / 16), HexDigit(n / 16 / 16 % 16), HexDigit(n / 16 % 16), HexDigit(n % 16)]
  }

  /**
   * One character of a string as `json.dumps` writes it: the short escapes for
   * the quote, the backslash and five control characters, the character itself
   * when printable ASCII, else `\uXXXX`, with a surrogate pair beyond U+FFFF.
   */
  function EscapeChar(c: char): (s: string)
  {
    if c == '"' then "\\\""
    else if c == '\\' then "\\\\"
    else if c == '\n' then "\\n"
    else if c == '\r' then "\\r"
    else if c == '\t' then "\\t"
    else if c as int == 0x08 then "\\b"
    else if c as int == 0x0C then "\\f"
    else if ' ' <= c <= '~' then [c]
    else UnicodeEscape(c as int)
  }

  /** `\uXXXX` for a code point of the basic plane, a surrogate pair of them beyond it. */
  function UnicodeEscape(code: nat): string
    requires code < 0x11_0000
  {
    if code < 0x1_0000 then "\\u" + Hex4(code)
    else
      var n := code - 0x1_0000;
      "\\u" + Hex4(0xD800 + n / 0x400) + "\\u" + Hex4(0xDC00 + n % 0x400)
  }

  function EscapeBody(s: string): string
  {
    if s == [] then "" else EscapeChar(s[0]) + EscapeBody(s[1..])
  }

  function EncodeString(s: string): string
  {
    "\"" + EscapeBody(s) + "\""
  }

  function EncodeValue(v: Value): string
  {
    match v
    case Null => "null"
    case Int(i) => Decimal.IntToString(i)
    case Str(s) => EncodeString(s)
  }

  function Member(item: (string, Value)): string
  {
    EncodeString(item.0) + ": " + EncodeValue(item.1)
  }

  function Members(d: Dict): string
  {
    if |d| == 0 then ""
    else if |d| == 1 then Member(d[0])
    else Member(d[0]) + ", " + Members(d[1..])
  }

  /** `json.dumps(d)`. */
  function Dumps(d: Dict): (e: string)
    ensures |e| >= 2 && e[0] == '{' && e[|e| - 1] == '}'
  {
    "{" + Members(d) + "}"
  }

  // ---------------------------------------------------------------------------
  // What Dumps writes is one line of printable ASCII

  lemma PrintableConcat(a: string, b: string)
    requires Printable(a) && Printable(b)
    ensures Printable(a + b)
  {
  }

  lemma Hex4Printable(n: nat)
    requires n < 0x1_0000
    ensures Printable(Hex4(n))
  {
  }

  lemma EscapeCharPrintable(c: char)
    ensures Printable(EscapeChar(c))
  {
    if !ShortEscaped(c) && !(' ' <= c <= '~') {
      if c as int < 0x1_0000 {
        Hex4Printable(c as int);
      } else {
        var n := c as int - 0x1_0000;
        Hex4Printable(0xD800 + n / 0x400);
        Hex4Printable(0xDC00 + n % 0x400);
      }
    }
  }

  lemma {:induction false} EscapeBodyPrintable(s: string)
    ensures Printable(EscapeBody(s))
  {
    if s != [] {
      EscapeCharPrintable(s[0]);
      EscapeBodyPrintable(s[1..]);
      PrintableConcat(EscapeChar(s[0]), EscapeBody(s[1..]));
    }
  }

  lemma IntToStringPrintable(i: int)
    ensures Printable(Decimal.IntToString(i))
  {
    var e := Decimal.IntToString(i);
    if i < 0 {
      assert e == "-" + Decimal.NatToString(-i);
      PrintableConcat("-", Decimal.NatToString(-i));
    }
  }

  lemma MemberPrintable(item: (string, Value))
    ensures Printable(Member(item))
  {
    EncodeStringPrintable(item.0);
    match item.1
    case Null =>
    case Int(i) => IntToStringPrintable(i);
    case Str(s) => EncodeStringPrintable(s);
    PrintableConcat(EncodeString(item.0), ": ");
    PrintableConcat(EncodeString(item.0) + ": ", EncodeValue(item.1));
  }

  lemma EncodeStringPrintable(s: string)
    ensures Printable(EncodeString(s))
  {
    EscapeBodyPrintable(s);
    PrintableConcat("\"", EscapeBody(s));
    PrintableConcat("\"" + EscapeBody(s), "\"");
  }

  lemma {:induction false} MembersPrintable(d: Dict)
    ensures Printable(Members(d))
  {
    if |d| >= 1 {
      MemberPrintable(d[0]);
    }
    if |d| >= 2 {
      MembersPrintable(d[1..]);
    }
  }

  /** `json.dumps(d)` is printable ASCII, so a manifest record never spans two lines. */
  lemma DumpsPrintable(d: Dict)
    ensures Printable(Dumps(d))
    ensures forall i :: 0 <= i < |Dumps(d)| ==> Dumps(d)[i] != '\n'
  {
    MembersPrintable(d);
  }

  // ---------------------------------------------------------------------------
  // Reading back: the part of json.loads that reads what Dumps writes

  predicate IsHex(c: char) { '0' <= c <= '9' || 'a' <= c <= 'f' || 'A' <= c <= 'F' }

  function HexValue(c: char): (d: nat)
    requires IsHex(c)
    ensures d < 16
  {
    if '0' <= c <= '9' then c as int - '0' as int
    else if 'a' <= c <= 'f' then c as int - 'a' as int + 10
    else c as int - 'A' as int + 10
  }

  predicate IsHex4(s: string) { |s| == 4 && IsHex(s[0]) && IsHex(s[1]) && IsHex(s[2]) && IsHex(s[3]) }

  function Hex4Value(s: string): (n: nat)
    requires IsHex4(s)
    ensures n < 0x1_0000
  {
    HexValue(s[0]) * 0x1000 + HexValue(s[1]) * 0x100 + HexValue(s[2]) * 0x10 + HexValue(s[3])
  }

  lemma Hex4RoundTrip(n: nat)
    requires n < 0x1_0000
    ensures IsHex4(Hex4(n)) && Hex4Value(Hex4(n)) == n
  {
    var h := Hex4(n);
    var q1, q2, q3 := n / 16, n / 16 / 16, n / 16 / 16 / 16;
    assert n == 16 * q1 + n % 16;
    assert q1 == 16 * q2 + q1 % 16;
    assert q2 == 16 * q3 + q2 % 16;
    assert HexValue(h[0]) == q3;
    assert HexValue(h[1]) == q2 % 16;
    assert HexValue(h[2]) == q1 % 16;
    assert HexValue(h[3]) == n % 16;
  }

  predicate IsSurrogate(n: int) { 0xD800 <= n <= 0xDFFF }

  /**
   * The escape sequence at the start of `t` (which begins with a backslash):
   * the character it stands for and its length.
   */
  function DecodeEscape(t: string): (r: Option<(char, nat)>)
    requires |t| >= 1 && t[0] == '\\'
    ensures r.Some? ==> 2 <= r.value.1 <= |t|
  {
    if |t| < 2 then None
    else if t[1] == '"' then Some(('"', 2))
    else if t[1] == '\\' then Some(('\\', 2))
    else if t[1] == '/' then Some(('/', 2))
    else if t[1] == 'n' then Some(('\n', 2))
    else if t[1] == 'r' then Some(('\r', 2))
    else if t[1] == 't' then Some(('\t', 2))
    else if t[1] == 'b' then Some((0x08 as char, 2))
    else if t[1] == 'f' then Some((0x0C as char, 2))
    else if t[1] == 'u' && |t| >= 6 && IsHex4(t[2..6]) then
      var hi := Hex4Value(t[2..6]);
      if !IsSurrogate(hi) then Some((hi as char, 6))
      else if hi <= 0xDBFF && |t| >= 12 && t[6] == '\\' && t[7] == 'u' && IsHex4(t[8..12])
              && 0xDC00 <= Hex4Value(t[8..12]) <= 0xDFFF then
        var code := 0x1_0000 + (hi - 0xD800) * 0x400 + (Hex4Value(t[8..12]) - 0xDC00);
        Some((code as char, 12))
      else None
    else None
  }

  /**
   * The body of a string literal up to its closing quote: the decoded text and
   * what follows the quote.
   */
  function ScanString(t: string): (r: Option<(string, string)>)
    ensures r.Some? ==> |r.value.1| < |t|
    decreases |t|
  {
    if t == [] then None
    else if t[0] == '"' then Some(("", t[1..]))
    else if t[0] == '\\' then
      match DecodeEscape(t)
      case None => None
      case Some(esc) =>
        match ScanString(t[esc.1..])
        case None => None
        case Some(p) => Some(([esc.0] + p.0, p.1))
    else if t[0] < ' ' then None
    else
      match ScanString(t[1..])
      case None => None
      case Some(p) => Some(([t[0]] + p.0, p.1))
  }

  function DigitRun(t: string): (n: nat)
    ensures n <= |t| && Decimal.AllDigits(t[..n])
    ensures n < |t| ==> !Decimal.IsDigit(t[n])
  {
    if t == [] || !Decimal.IsDigit(t[0]) then 0
    else
      var n := DigitRun(t[1..]) + 1;
      assert t[..n] == [t[0]] + t[1..][..n - 1];
      n
  }

  /** A value at the start of `t` and the text after it. */
  function ScanValue(t: string): (r: Option<(Value, string)>)
    ensures r.Some? ==> |r.value.1| < |t|
  {
    if |t| >= 4 && t[..4] == "null" then Some((Null, t[4..]))
    else if |t| >= 1 && t[0] == '"' then
      match ScanString(t[1..])
      case None => None
      case Some(p) => Some((Str(p.0), p.1))
    else
      var start := if |t| >= 1 && t[0] == '-' then 1 else 0;
      var n := DigitRun(t[start..]);
      if n == 0 then None
      else
        match Decimal.ParseInt(t[..start + n])
        case None => None
        case Some(i) => Some((Int(i), t[start + n..]))
  }

  /** The members of an object after its `{`, through the closing `}`. */
  function ScanMembers(t: string): (r: Option<(Dict, string)>)
    decreases |t|
  {
    if |t| == 0 || t[0] != '"' then None
    else
      match ScanString(t[1..])
      case None => None
      case Some(kp) =>
        var afterKey := kp.1;
        if |afterKey| < 2 || afterKey[..2] != ": " then None
        else
          match ScanValue(afterKey[2..])
          case None => None
          case Some(vp) =>
            var afterValue := vp.1;
            if |afterValue| >= 1 && afterValue[0] == '}' then Some(([(kp.0, vp.0)], afterValue[1..]))
            else if |afterValue| >= 2 && afterValue[..2] == ", " then
              Prepend((kp.0, vp.0), ScanMembers(afterValue[2..]))
            else None
  }

  function Prepend(item: (string, Value), r: Option<(Dict, string)>): Option<(Dict, string)>
  {
    match r
    case None => None
    case Some(mp) => Some(([item] + mp.0, mp.1))
  }

  /** `json.loads` on one manifest line, for the flat objects Dumps writes. */
  function Loads(t: string): Option<Dict>
  {
    if t == "{}" then Some([])
    else if |t| == 0 || t[0] != '{' then None
    else
      match ScanMembers(t[1..])
      case Some(mp) => if mp.1 == [] then Some(mp.0) else None
      case None => None
  }

  // ---------------------------------------------------------------------------
  // Round trip

  predicate ShortEscaped(c: char) {
    c == '"' || c == '\\' || c == '\n' || c == '\r' || c == '\t' || c as int == 0x08 || c as int == 0x0C
  }

  lemma EscapeCharRoundTrip(c: char, rest: string)
    ensures
      var t := EscapeChar(c) + rest;
      && |t| >= 1 && t[0] != '"'
      && (t[0] == '\\' ==> DecodeEscape(t) == Some((c, |EscapeChar(c)|)))
      && (t[0] != '\\' ==> t[0] == c && ' ' <= c && |EscapeChar(c)| == 1)
  {
    if ShortEscaped(c) {
      ShortRoundTrip(c, rest);
    } else if ' ' <= c <= '~' {
    } else if c as int < 0x1_0000 {
      BmpRoundTrip(c, rest);
    } else {
      PairRoundTrip(c, rest);
    }
  }

  lemma ShortRoundTrip(c: char, rest: string)
    requires ShortEscaped(c)
    ensures var t := EscapeChar(c) + rest; |EscapeChar(c)| == 2 && t[0] == '\\' && DecodeEscape(t) == Some((c, 2))
  {
  }

  lemma BmpRoundTrip(c: char, rest: string)
    requires !ShortEscaped(c) && !(' ' <= c <= '~') && c as int < 0x1_0000
    ensures var t := EscapeChar(c) + rest; |EscapeChar(c)| == 6 && t[0] == '\\' && DecodeEscape(t) == Some((c, 6))
  {
    var t := EscapeChar(c) + rest;
    assert EscapeChar(c) == UnicodeEscape(c as int) == "\\u" + Hex4(c as int);
    Hex4RoundTrip(c as int);
    assert t[2..6] == Hex4(c as int);
  }

  lemma PairRoundTrip(c: char, rest: string)
    requires c as int >= 0x1_0000
    ensures var t := EscapeChar(c) + rest; |EscapeChar(c)| == 12 && t[0] == '\\' && DecodeEscape(t) == Some((c, 12))
  {
    var n := c as int - 0x1_0000;
    var hi, lo := 0xD800 + n / 0x400, 0xDC00 + n % 0x400;
    SurrogateArithmetic(n);
    assert EscapeChar(c) == UnicodeEscape(c as int);
    PairEscape(c as int, hi, lo);
    DecodePair(c, hi, lo, rest);
  }

  lemma DecodePair(c: char, hi: nat, lo: nat, rest: string)
    requires 0xD800 <= hi <= 0xDBFF && 0xDC00 <= lo <= 0xDFFF
    requires c as int == 0x1_0000 + (hi - 0xD800) * 0x400 + (lo - 0xDC00)
    ensures DecodeEscape("\\u" + Hex4(hi) + "\\u" + Hex4(lo) + rest) == Some((c, 12))
  {
    var t := "\\u" + Hex4(hi) + "\\u" + Hex4(lo) + rest;
    Hex4RoundTrip(hi);
    Hex4RoundTrip(lo);
    assert t[0] == '\\' && t[1] == 'u';
    assert t[2..6] == Hex4(hi);
    assert t[8..12] == Hex4(lo);
    assert t[6] == '\\' && t[7] == 'u';
  }

  lemma PairEscape(code: nat, hi: nat, lo: nat)
    requires 0x1_0000 <= code < 0x11_0000
    requires hi == 0xD800 + (code - 0x1_0000) / 0x400 && lo == 0xDC00 + (code - 0x1_0000) % 0x400
    ensures hi < 0x1_0000 && lo < 0x1_0000
    ensures UnicodeEscape(code) == "\\u" + Hex4(hi) + "\\u" + Hex4(lo)
  {
  }

  lemma SurrogateArithmetic(n: int)
    requires 0 <= n < 0x10_0000
    ensures 0 <= n / 0x400 < 0x400 && 0 <= n % 0x400 < 0x400
    ensures 0x1_0000 + (0xD800 + n / 0x400 - 0xD800) * 0x400 + (0xDC00 + n % 0x400 - 0xDC00) == n + 0x1_0000
  {
  }

  lemma {:induction false} ScanStringRoundTrip(s: string, rest: string)
    ensures ScanString(EscapeBody(s) + "\"" + rest) == Some((s, rest))
  {
    var t := EscapeBody(s) + "\"" + rest;
    if s == [] {
      assert t == "\"" + rest;
    } else {
      var tail := EscapeBody(s[1..]) + "\"" + rest;
      assert t == EscapeChar(s[0]) + tail;
      EscapeCharRoundTrip(s[0], tail);
      ScanStringRoundTrip(s[1..], rest);
      assert t[|EscapeChar(s[0])|..] == tail;
      assert [s[0]] + s[1..] == s;
    }
  }

  lemma ScanValueRoundTrip(v: Value, rest: string)
    requires rest != [] && (rest[0] == ',' || rest[0] == '}')
    ensures ScanValue(EncodeValue(v) + rest) == Some((v, rest))
  {
    match v
    case Null =>
      var t := "null" + rest;
      assert t[..4] == "null" && t[4..] == rest;
    case Str(s) =>
      ScanStrRoundTrip(s, rest);
    case Int(i) =>
      ScanIntRoundTrip(i, rest);
  }

  lemma ScanStrRoundTrip(s: string, rest: string)
    ensures ScanValue(EncodeString(s) + rest) == Some((Str(s), rest))
  {
    var t := EncodeString(s) + rest;
    QuotedTail(EscapeBody(s), rest);
    ScanValueQuoted(t);
    ScanStringRoundTrip(s, rest);
  }

  /** A value that starts with a quote is read as a string. */
  lemma ScanValueQuoted(t: string)
    requires |t| >= 1 && t[0] == '"'
    ensures ScanValue(t) == match ScanString(t[1..])
      case None => None
      case Some(p) => Some((Str(p.0), p.1))
  {
    if |t| >= 4 {
      assert t[..4][0] == '"';
    }
  }

  lemma ScanIntRoundTrip(i: int, rest: string)
    requires rest != [] && !Decimal.IsDigit(rest[0])
    ensures ScanValue(Decimal.IntToString(i) + rest) == Some((Int(i), rest))
  {
    var e := Decimal.IntToString(i);
    var t := e + rest;
    var start := if i < 0 then 1 else 0;
    var digits := Decimal.NatToString(if i < 0 then -i else i);
    assert e == e[..start] + digits;
    assert t[0] == '-' || Decimal.IsDigit(t[0]);
    assert t[0] != 'n';
    assert t[start..] == digits + rest;
    DigitRunOf(digits, rest);
    assert t[..start + |digits|] == e;
    Decimal.ParseIntToString(i);
    assert t[start + |digits|..] == rest;
    ScanValueNumeric(t, start, |digits|, i);
  }

  /** A value that starts with a sign or a digit is read as the integer its digit run spells. */
  lemma ScanValueNumeric(t: string, start: nat, n: nat, i: int)
    requires |t| >= 1 && t[0] != 'n' && t[0] != '"'
    requires start == if t[0] == '-' then 1 else 0
    requires start <= |t| && n == DigitRun(t[start..]) && n > 0
    requires Decimal.ParseInt(t[..start + n]) == Some(i)
    ensures ScanValue(t) == Some((Int(i), t[start + n..]))
  {
    if |t| >= 4 {
      assert t[..4][0] == t[0];
    }
  }

  lemma {:induction false} DigitRunOf(digits: string, rest: string)
    requires Decimal.AllDigits(digits)
    requires rest != [] && !Decimal.IsDigit(rest[0])
    ensures DigitRun(digits + rest) == |digits|
  {
    if digits != [] {
      assert (digits + rest)[1..] == digits[1..] + rest;
      DigitRunOf(digits[1..], rest);
    }
  }

  lemma {:induction false} ScanMembersRoundTrip(d: Dict, rest: string)
    requires |d| >= 1
    ensures ScanMembers(Members(d) + "}" + rest) == Some((d, rest))
  {
    var item := d[0];
    if |d| == 1 {
      ScanLastMember(d, rest);
    } else {
      var tail := Members(d[1..]) + "}" + rest;
      MembersUnfold(d, rest);
      ScanMembersRoundTrip(d[1..], rest);
      ScanMembersCons(item, tail, d[1..], rest);
      Seqs.ConsTail(d);
    }
  }

  lemma MembersUnfold(d: Dict, rest: string)
    requires |d| >= 2
    ensures Members(d) + "}" + rest == Member(d[0]) + ", " + (Members(d[1..]) + "}" + rest)
  {
    var m, ms := Member(d[0]), Members(d[1..]);
    assert Members(d) == m + ", " + ms;
    RegroupTail(m + ", ", ms, "}", rest);
  }

  lemma RegroupTail(a: string, b: string, c: string, d: string)
    ensures a + b + c + d == a + (b + c + d)
  {
  }

  lemma ScanLastMember(d: Dict, rest: string)
    requires |d| == 1
    ensures ScanMembers(Members(d) + "}" + rest) == Some((d, rest))
  {
    var after := "}" + rest;
    assert Members(d) + "}" + rest == Member(d[0]) + after;
    ScanMemberStep(d[0], after);
    assert after[1..] == rest;
    assert d == [d[0]];
  }

  lemma ScanMembersCons(item: (string, Value), tail: string, d: Dict, rest: string)
    requires ScanMembers(tail) == Some((d, rest))
    ensures ScanMembers(Member(item) + ", " + tail) == Some(([item] + d, rest))
  {
    var after := ", " + tail;
    assert Member(item) + ", " + tail == Member(item) + after;
    assert after[..2] == ", ";
    ScanMemberStep(item, after);
    assert after[2..] == tail;
  }

  lemma ScanMemberStep(item: (string, Value), after: string)
    requires after != [] && (after[0] == '}' || (|after| >= 2 && after[..2] == ", "))
    ensures var r := ScanMembers(Member(item) + after);
      && (after[0] == '}' ==> r == Some(([item], after[1..])))
      && (after[0] != '}' ==> r == Prepend(item, ScanMembers(after[2..])))
  {
    var t := Member(item) + after;
    var tail := ": " + EncodeValue(item.1) + after;
    ScanKey(item, after);
    ScanSeparatedValue(item.1, after);
    ScanMembersUnfold(t, item.0, tail, item.1, after);
  }

  lemma ScanKey(item: (string, Value), after: string)
    ensures var t := Member(item) + after;
      |t| >= 1 && t[0] == '"' && ScanString(t[1..]) == Some((item.0, ": " + EncodeValue(item.1) + after))
  {
    var t := Member(item) + after;
    var b := EscapeBody(item.0);
    var tail := ": " + EncodeValue(item.1) + after;
    assert t == "\"" + b + "\"" + tail;
    QuotedTail(b, tail);
    ScanStringRoundTrip(item.0, tail);
  }

  lemma QuotedTail(b: string, rest: string)
    ensures var t := "\"" + b + "\"" + rest;
      |t| >= 1 && t[0] == '"' && t[1..] == b + "\"" + rest
  {
    var t := "\"" + b + "\"" + rest;
    assert t == "\"" + (b + "\"" + rest);
  }

  lemma ScanSeparatedValue(v: Value, after: string)
    requires after != [] && (after[0] == '}' || (|after| >= 2 && after[..2] == ", "))
    ensures var tail := ": " + EncodeValue(v) + after;
      |tail| >= 2 && tail[..2] == ": " && ScanValue(tail[2..]) == Some((v, after))
  {
    var tail := ": " + EncodeValue(v) + after;
    Seqs.Associative(": ", EncodeValue(v), after);
    SplitAfter(": ", EncodeValue(v) + after);
    ScanValueRoundTrip(v, after);
  }

  lemma SplitAfter(p: string, x: string)
    ensures |p + x| == |p| + |x| && (p + x)[..|p|] == p && (p + x)[|p|..] == x
  {
  }

  /** One step of ScanMembers once the key and the value are read. */
  lemma ScanMembersUnfold(t: string, k: string, tail: string, v: Value, after: string)
    requires |t| >= 1 && t[0] == '"' && ScanString(t[1..]) == Some((k, tail))
    requires |tail| >= 2 && tail[..2] == ": " && ScanValue(tail[2..]) == Some((v, after))
    requires after != [] && (after[0] == '}' || (|after| >= 2 && after[..2] == ", "))
    ensures after[0] == '}' ==> ScanMembers(t) == Some(([(k, v)], after[1..]))
    ensures after[0] != '}' ==> ScanMembers(t) == Prepend((k, v), ScanMembers(after[2..]))
  {
  }

  /** What Dumps writes, Loads reads back as the same dict, in the same order. */
  lemma LoadsDumps(d: Dict)
    ensures Loads(Dumps(d)) == Some(d)
  {
    if |d| >= 1 {
      var t := Dumps(d);
      var m := Members(d);
      MembersLength(d);
      DropOpening(m);
      ScanMembersRoundTrip(d, "");
      assert |t| > 2;
    }
  }

  lemma DropOpening(m: string)
    ensures ("{" + m + "}")[1..] == m + "}" + ""
  {
  }

  lemma MembersLength(d: Dict)
    requires |d| >= 1
    ensures |Members(d)| >= |Member(d[0])| >= 2
  {
  }
}
