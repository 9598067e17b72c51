/**
 `json.dumps` on JSON-native values, with its default separators and ASCII escaping. The
 printers take the text that follows, so that a value is printed in front of it.
 */
module Json {
  import opened Options
  import opened Texts

  datatype Value =
    | Null
    | Bool(b: bool)
    | Num(n: int)
    | Str(s: string)
    | Arr(items: seq<Value>)
    | Obj(members: seq<Member>)

  datatype Member = Member(name: string, value: Value)

  // ---------- printing ----------

  function HexDigit(d: nat): char
    requires d < 16
  {
    if d < 10 then ('0' as int + d) as char else ('a' as int + (d - 10)) as char
  }

  /** Four lower-case hexadecimal digits. */
  function Hex4(n: nat): (h: string)
    requires n < 0x1_0000
    ensures |h| == 4
  {
    [HexDigit(n / 16 / 16 / 16), HexDigit(n / 16 / 16 % 16), HexDigit(n / 16 % 16), HexDigit(n % 16)]
  }

  /** The letter of a two-character escape, or a blank for characters without one. */
  function ShortEscape(c: char): char {
    if c == '"' then '"' else if c == '\\' then '\\' else if c == '\n' then 'n' else if c == '\r' then 'r'
    else if c == '\t' then 't' else if c == '\U{000C}' then 'f' else if c == '\U{0008}' then 'b' else ' '
  }

  predicate IsPrintable(c: char) {
    ' ' <= c <= '~'
  }

  /** The UTF-16 code units of a character. */
  function FirstUnit(c: char): (n: nat)
    ensures n < 0x1_0000
  {
    if c as int < 0x1_0000 then c as int else 0xD800 + (c as int - 0x1_0000) / 0x400
  }

  function SecondUnit(c: char): (n: nat)
    requires c as int >= 0x1_0000
    ensures n < 0x1_0000
  {
    0xDC00 + (c as int - 0x1_0000) % 0x400
  }

  /** A character inside a JSON string; anything outside printable ASCII is escaped. */
  function EscapeChar(c: char, r: string): string {
    if ShortEscape(c) != ' ' then ['\\', ShortEscape(c)] + r
    else if IsPrintable(c) then [c] + r
    else if c as int < 0x1_0000 then "\\u" + (Hex4(FirstUnit(c)) + r)
    else "\\u" + (Hex4(FirstUnit(c)) + ("\\u" + (Hex4(SecondUnit(c)) + r)))
  }

  function Escape(s: string, r: string): string {
    if s == "" then r else EscapeChar(s[0], Escape(s[1..], r))
  }

  function Quoted(s: string, r: string): string {
    "\"" + Escape(s, "\"" + r)
  }

  function PrintInt(n: int, r: string): string {
    if n < 0 then "-" + (Digits(-n) + r) else Digits(n) + r
  }

  function Print(v: Value, r: string): string
    decreases v, 1
  {
    match v
    case Null => "null" + r
    case Bool(b) => (if b then "true" else "false") + r
    case Num(n) => PrintInt(n, r)
    case Str(s) => Quoted(s, r)
    case Arr(items) => "[" + PrintItems(items, "]" + r)
    case Obj(members) => "{" + PrintMembers(members, "}" + r)
  }

  function PrintItems(items: seq<Value>, r: string): string
    decreases items, 0
  {
    if items == [] then r
    else Print(items[0], if |items| == 1 then r else ", " + PrintItems(items[1..], r))
  }

  function PrintMember(m: Member, r: string): string
    decreases m, 2
  {
    Quoted(m.name, ": " + Print(m.value, r))
  }

  function PrintMembers(members: seq<Member>, r: string): string
    decreases members, 0
  {
    if members == [] then r
    else PrintMember(members[0], if |members| == 1 then r else ", " + PrintMembers(members[1..], r))
  }

  /** `json.dumps(v)`. */
  function Dumps(v: Value): string {
    Print(v, "")
  }

  // ---------- reading back ----------

  function HexValue(c: char): Option<nat> {
    if '0' <= c <= '9' then Some(c as int - '0' as int)
    else if 'a' <= c <= 'f' then Some(c as int - 'a' as int + 10)
    else None
  }

  /** Four hexadecimal digits, and the text after them. */
  function ReadHex4(s: string): (r: Option<(nat, string)>)
    ensures r.Some? ==> r.value.0 < 0x1_0000 && |r.value.1| < |s|
  {
    if |s| < 4 then None
    else
      match (HexValue(s[0]), HexValue(s[1]), HexValue(s[2]), HexValue(s[3]))
      case (Some(a), Some(b), Some(c), Some(d)) =>
        if a < 16 && b < 16 && c < 16 && d < 16 then Some((0x1000 * a + 0x100 * b + 0x10 * c + d, s[4..])) else None
      case _ => None
  }

  /** The character that a letter after a backslash stands for. */
  function Unescaped(letter: char): Option<char> {
    match letter
    case '"' => Some('"')
    case '\\' => Some('\\')
    case '/' => Some('/')
    case 'n' => Some('\n')
    case 'r' => Some('\r')
    case 't' => Some('\t')
    case 'f' => Some('\U{000C}')
    case 'b' => Some('\U{0008}')
    case _ => None
  }

  /** What follows backslash and u: a code unit, or two that encode one character in UTF-16. */
  function ReadUnits(s: string): (r: Option<(char, string)>)
    ensures r.Some? ==> |r.value.1| < |s|
  {
    match ReadHex4(s)
    case None => None
    case Some((n, rest)) =>
      if n < 0xD800 || 0xE000 <= n then Some((n as char, rest))
      else if 0xDC00 <= n || !("\\u" <= rest) then None
      else
        match ReadHex4(rest[2..])
        case None => None
        case Some((m, more)) =>
          if 0xDC00 <= m < 0xE000 then Some(((0x1_0000 + (n - 0xD800) * 0x400 + (m - 0xDC00)) as char, more)) else None
  }

  /** One character of a string, escaped or not. */
  function ReadChar(s: string): (r: Option<(char, string)>)
    ensures r.Some? ==> |r.value.1| < |s|
  {
    if s == "" then None
    else if s[0] != '\\' then Some((s[0], s[1..]))
    else if |s| == 1 then None
    else if s[1] == 'u' then ReadUnits(s[2..])
    else if Unescaped(s[1]).Some? then Some((Unescaped(s[1]).value, s[2..]))
    else None
  }

  /** The rest of a string, up to its closing quote. */
  function ReadString(s: string): (r: Option<(string, string)>)
    ensures r.Some? ==> |r.value.1| < |s|
    decreases |s|
  {
    if s == "" then None
    else if s[0] == '"' then Some(("", s[1..]))
    else
      match ReadChar(s)
      case None => None
      case Some((c, rest)) =>
        match ReadString(rest)
        case None => None
        case Some((t, more)) => Some(([c] + t, more))
  }

  /** A value, and the text after it. */
  function Read(s: string): (r: Option<(Value, string)>)
    ensures r.Some? ==> |r.value.1| < |s|
    decreases |s|, 1
  {
    if s == "" then None
    else
      match s[0]
      case 'n' => if "null" <= s then Some((Null, s[4..])) else None
      case 't' => if "true" <= s then Some((Bool(true), s[4..])) else None
      case 'f' => if "false" <= s then Some((Bool(false), s[5..])) else None
      case '"' =>
        (match ReadString(s[1..])
         case None => None
         case Some((t, rest)) => Some((Str(t), rest)))
      case '[' =>
        if "]" <= s[1..] then Some((Arr([]), s[2..]))
        else
          (match ReadItems(s[1..])
           case None => None
           case Some((items, rest)) => Some((Arr(items), rest)))
      case '{' =>
        if "}" <= s[1..] then Some((Obj([]), s[2..]))
        else
          (match ReadMembers(s[1..])
           case None => None
           case Some((members, rest)) => Some((Obj(members), rest)))
      case '-' =>
        var (n, rest) := ReadDigits(s[1..], 0);
        if |rest| < |s| - 1 then Some((Num(0 - n), rest)) else None
      case _ =>
        var (n, rest) := ReadDigits(s, 0);
        if |rest| < |s| then Some((Num(n), rest)) else None
  }

  /** The values of a list, up to its closing bracket. */
  function ReadItems(s: string): (r: Option<(seq<Value>, string)>)
    ensures r.Some? ==> |r.value.1| < |s|
    decreases |s|, 2
  {
    match Read(s)
    case None => None
    case Some((v, rest)) =>
      if "]" <= rest then Some(([v], rest[1..]))
      else if !(", " <= rest) then None
      else
        match ReadItems(rest[2..])
        case None => None
        case Some((items, more)) => Some(([v] + items, more))
  }

  /** A name and its value. */
  function ReadMember(s: string): (r: Option<(Member, string)>)
    ensures r.Some? ==> |r.value.1| < |s|
    decreases |s|, 2
  {
    if !("\"" <= s) then None
    else
      match ReadString(s[1..])
      case None => None
      case Some((name, rest)) =>
        if !(": " <= rest) then None
        else
          match Read(rest[2..])
          case None => None
          case Some((v, more)) => Some((Member(name, v), more))
  }

  /** The entries of a dictionary, up to its closing brace. */
  function ReadMembers(s: string): (r: Option<(seq<Member>, string)>)
    ensures r.Some? ==> |r.value.1| < |s|
    decreases |s|, 3
  {
    match ReadMember(s)
    case None => None
    case Some((m, rest)) =>
      if "}" <= rest then Some(([m], rest[1..]))
      else if !(", " <= rest) then None
      else
        match ReadMembers(rest[2..])
        case None => None
        case Some((members, more)) => Some(([m] + members, more))
  }

  // ---------- what is printed is read back, whatever follows ----------

  lemma Hex4ReadsBack(n: nat, r: string)
    requires n < 0x1_0000
    ensures ReadHex4(Hex4(n) + r) == Some((n, r))
  {
    var a, b, c, d := n / 16 / 16 / 16, n / 16 / 16 % 16, n / 16 % 16, n % 16;
    assert n == 0x1000 * a + 0x100 * b + 0x10 * c + d;
    assert (Hex4(n) + r)[4..] == r;
  }

  /** A character outside printable ASCII and without a letter is read back from its code units. */
  lemma UnitsReadBack(c: char, r: string)
    requires ShortEscape(c) == ' ' && !IsPrintable(c)
    ensures ReadChar(EscapeChar(c, r)) == Some((c, r))
  {
    var more := if c as int < 0x1_0000 then r else "\\u" + (Hex4(SecondUnit(c)) + r);
    var s := "\\u" + (Hex4(FirstUnit(c)) + more);
    assert EscapeChar(c, r) == s && s[2..] == Hex4(FirstUnit(c)) + more;
    Hex4ReadsBack(FirstUnit(c), more);
    if c as int >= 0x1_0000 {
      assert more[2..] == Hex4(SecondUnit(c)) + r;
      Hex4ReadsBack(SecondUnit(c), r);
      var k := c as int - 0x1_0000;
      assert k == k / 0x400 * 0x400 + k % 0x400 && k / 0x400 < 0x400;
    }
  }

  lemma CharReadsBack(c: char, r: string)
    ensures ReadChar(EscapeChar(c, r)) == Some((c, r))
    ensures EscapeChar(c, r)[0] != '"'
  {
    if ShortEscape(c) != ' ' {
      assert (['\\', ShortEscape(c)] + r)[2..] == r;
    } else if IsPrintable(c) {
      assert ([c] + r)[1..] == r;
    } else {
      UnitsReadBack(c, r);
    }
  }

  lemma {:induction false} StringReadsBack(s: string, r: string)
    ensures ReadString(Escape(s, "\"" + r)) == Some((s, r))
    decreases |s|
  {
    if s == "" {
      assert ("\"" + r)[1..] == r;
    } else {
      CharReadsBack(s[0], Escape(s[1..], "\"" + r));
      StringReadsBack(s[1..], r);
      assert s == [s[0]] + s[1..];
    }
  }

  /** Text that may follow a complete value. */
  predicate Ends(r: string) {
    r == "" || r[0] == ',' || r[0] == ']' || r[0] == '}'
  }

  lemma Follows(a: string, r: string)
    ensures a <= a + r && (a + r)[|a|..] == r
  {
  }

  lemma NumReadsBack(n: int, r: string)
    requires Ends(r)
    ensures Read(PrintInt(n, r)) == Some((Num(n), r))
  {
    if n < 0 {
      Follows("-", Digits(-n) + r);
      NumeralReadsBack(-n, r);
    } else {
      NumeralReadsBack(n, r);
    }
  }

  lemma WordsReadBack(r: string)
    ensures Read("null" + r) == Some((Null, r))
    ensures Read("true" + r) == Some((Bool(true), r))
    ensures Read("false" + r) == Some((Bool(false), r))
  {
    Follows("null", r);
    Follows("true", r);
    Follows("false", r);
    assert ("null" + r)[0] == 'n' && ("true" + r)[0] == 't' && ("false" + r)[0] == 'f';
  }

  lemma {:induction false} ReadsBack(v: Value, r: string)
    requires Ends(r)
    ensures Read(Print(v, r)) == Some((v, r))
    decreases v, 1
  {
    match v
    case Null => WordsReadBack(r);
    case Bool(_) => WordsReadBack(r);
    case Num(n) => NumReadsBack(n, r);
    case Str(s) =>
      Follows("\"", Escape(s, "\"" + r));
      StringReadsBack(s, r);
    case Arr(items) =>
      Follows("[", PrintItems(items, "]" + r));
      if items == [] {
        Follows("]", r);
        assert ("[" + ("]" + r))[2..] == r;
      } else {
        ItemsReadBack(items, r);
      }
    case Obj(members) =>
      Follows("{", PrintMembers(members, "}" + r));
      if members == [] {
        Follows("}", r);
        assert ("{" + ("}" + r))[2..] == r;
      } else {
        MembersReadBack(members, r);
      }
  }

  lemma {:induction false} ItemsReadBack(items: seq<Value>, r: string)
    requires items != []
    ensures ReadItems(PrintItems(items, "]" + r)) == Some((items, r))
    ensures PrintItems(items, "]" + r) != "" && PrintItems(items, "]" + r)[0] != ']'
    decreases items, 0
  {
    Follows("]", r);
    assert items == [items[0]] + items[1..];
    if |items| == 1 {
      ReadsBack(items[0], "]" + r);
      assert items == [items[0]];
    } else {
      var more := PrintItems(items[1..], "]" + r);
      ReadsBack(items[0], ", " + more);
      Follows(", ", more);
      ItemsReadBack(items[1..], r);
    }
  }

  lemma {:induction false} MemberReadsBack(m: Member, r: string)
    requires Ends(r)
    ensures ReadMember(PrintMember(m, r)) == Some((m, r))
    decreases m, 2
  {
    var after := ": " + Print(m.value, r);
    Follows("\"", Escape(m.name, "\"" + after));
    StringReadsBack(m.name, after);
    Follows(": ", Print(m.value, r));
    ReadsBack(m.value, r);
  }

  lemma {:induction false} MembersReadBack(members: seq<Member>, r: string)
    requires members != []
    ensures ReadMembers(PrintMembers(members, "}" + r)) == Some((members, r))
    ensures PrintMembers(members, "}" + r) != "" && PrintMembers(members, "}" + r)[0] == '"'
    decreases members, 0
  {
    Follows("}", r);
    assert members == [members[0]] + members[1..];
    if |members| == 1 {
      MemberReadsBack(members[0], "}" + r);
      assert members == [members[0]];
    } else {
      var more := PrintMembers(members[1..], "}" + r);
      MemberReadsBack(members[0], ", " + more);
      Follows(", ", more);
      MembersReadBack(members[1..], r);
    }
  }

  /** Every value tree is read back from its text. */
  lemma DumpsReadsBack(v: Value)
    ensures Read(Dumps(v)) == Some((v, ""))
  {
    ReadsBack(v, "");
  }

  /** Different value trees never print alike. */
  lemma DumpsInjective(v: Value, w: Value)
    ensures Dumps(v) == Dumps(w) <==> v == w
  {
    DumpsReadsBack(v);
    DumpsReadsBack(w);
  }
}
