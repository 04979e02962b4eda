/** The recursive-descent JSON parser: what it makes of any text, as functions of text and
    position, and the parser object that moves its position to compute it. */
module JsonParser {
  import opened JsonTree
  import Strings = JsonStrings

  datatype Flags = Flags(comments: bool, trailingComma: bool, singleQuotes: bool, unquotedKeys: bool)

  /** A failed parse returns NULL; a successful one a value and the position behind it. */
  datatype Parsed = Failed | Parsed(value: Json, end: nat)

  // ---------------------------------------------------------------- blanks

  predicate IsWhite(c: char) {
    c == ' ' || c == '\t' || c == '\n' || c == '\r'
  }

  function SkipWhite(t: string, p: nat): (q: nat)
    requires p <= |t|
    ensures p <= q <= |t|
    ensures q < |t| ==> !IsWhite(t[q])
    ensures forall i :: p <= i < q ==> IsWhite(t[i])
    decreases |t| - p
  {
    if p < |t| && IsWhite(t[p]) then SkipWhite(t, p + 1) else p
  }

  function LineEnd(t: string, p: nat): (q: nat)
    requires p <= |t|
    ensures p <= q <= |t|
    decreases |t| - p
  {
    if p < |t| && t[p] != '\n' then LineEnd(t, p + 1) else p
  }

  /** Where a block comment's inside ends, and whether `*` and `/` stand there. */
  function BlockEnd(t: string, p: nat): (q: nat)
    requires p <= |t|
    ensures p <= q <= |t|
    decreases |t| - p
  {
    if p + 1 < |t| && !(t[p] == '*' && t[p + 1] == '/') then BlockEnd(t, p + 1) else p
  }

  datatype Comment = Comment(skipped: bool, end: nat)

  /** An unterminated block comment moves the position but does not count as skipped. */
  function SkipComment(t: string, p: nat, flags: Flags): (c: Comment)
    requires p <= |t|
    ensures p <= c.end <= |t|
    ensures c.skipped ==> p < c.end
  {
    if !flags.comments || p + 1 >= |t| || t[p] != '/' then Comment(false, p) else
    if t[p + 1] == '/' then Comment(true, LineEnd(t, p + 2)) else
    if t[p + 1] != '*' then Comment(false, p) else
    var q := BlockEnd(t, p + 2);
    if q + 1 < |t| then Comment(true, q + 2) else Comment(false, q)
  }

  /** White space and comments, as many as there are. */
  function SkipBlanks(t: string, p: nat, flags: Flags): (q: nat)
    requires p <= |t|
    ensures p <= q <= |t|
    decreases |t| - p
  {
    var c := SkipComment(t, SkipWhite(t, p), flags);
    if c.skipped then SkipBlanks(t, c.end, flags) else c.end
  }

  // ---------------------------------------------------------------- numbers

  predicate IsDigit(c: char) {
    '0' <= c <= '9'
  }

  predicate InNumber(c: char) {
    IsDigit(c) || c == '.' || c == 'e' || c == 'E' || c == '+' || c == '-'
  }

  function NumberEnd(t: string, p: nat): (q: nat)
    requires p <= |t|
    ensures p <= q <= |t|
    ensures q < |t| ==> !InNumber(t[q])
    ensures forall i :: p <= i < q ==> InNumber(t[i])
    decreases |t| - p
  {
    if p < |t| && InNumber(t[p]) then NumberEnd(t, p + 1) else p
  }

  const INT64_MAX := 0x7fff_ffff_ffff_ffff
  const INT64_MIN := -0x8000_0000_0000_0000

  function ReadDigits(s: string, acc: nat): nat
    decreases |s|
  {
    if s == [] || !IsDigit(s[0]) then acc else ReadDigits(s[1..], 10 * acc + (s[0] as int - '0' as int))
  }

  function Saturate(n: int): int {
    if n > INT64_MAX then INT64_MAX else if n < INT64_MIN then INT64_MIN else n
  }

  /** `strtoll` in base 10: a sign, then digits up to the first other character, saturating. */
  function Strtoll(s: string): int {
    if s != [] && s[0] == '-' then Saturate(0 - ReadDigits(s[1..], 0)) else
    if s != [] && s[0] == '+' then Saturate(ReadDigits(s[1..], 0)) else Saturate(ReadDigits(s, 0))
  }

  predicate LooksInteger(s: string) {
    forall i :: 0 <= i < |s| ==> s[i] != '.' && s[i] != 'e' && s[i] != 'E'
  }

  function ParseNumber(t: string, p: nat, host: Host): (r: Parsed)
    requires p <= |t|
    ensures r.Parsed? && p <= r.end <= |t|
    ensures p < |t| && InNumber(t[p]) ==> p < r.end
  {
    var end := NumberEnd(t, p);
    var s := t[p..end];
    if LooksInteger(s) then
      Parsed(Number(true, Strtoll(s), host.double(Strtoll(s))), end)
    else
      Parsed(Number(false, host.truncate(host.strtod(s)), host.strtod(s)), end)
  }

  // ---------------------------------------------------------------- strings

  /** The quote test as the code has it: only a single quote passes, and only with its flag. */
  predicate QuoteAccepted(quote: char, flags: Flags) {
    !((quote != '"' && !flags.singleQuotes) || quote != '\'')
  }

  function ParseString(t: string, p: nat, flags: Flags): (r: Parsed)
    requires p <= |t|
    ensures r.Parsed? ==> p < r.end <= |t| && r.value.Text?
  {
    if p == |t| || !QuoteAccepted(t[p], flags) then Failed else
    var f := Strings.ClosingQuote(t, p + 1, t[p]);
    if f.Missing? then Failed else Parsed(Text(Strings.Unescape(t[p + 1..f.index])), f.index + 1)
  }

  // ---------------------------------------------------------------- values

  predicate Literal(t: string, p: nat, word: string) {
    p + |word| <= |t| && t[p..p + |word|] == word
  }

  function ParseValue(t: string, p: nat, flags: Flags, host: Host): (r: Parsed)
    requires p <= |t|
    ensures r.Parsed? ==> p < r.end <= |t|
    decreases |t| - p, 1
  {
    var q := SkipBlanks(t, p, flags);
    if q == |t| then Failed else
    match t[q]
    case '{' => ParseMembers(t, q + 1, flags, host, [])
    case '[' => ParseElements(t, q + 1, flags, host, [])
    case '"' => ParseString(t, q, flags)
    case '\'' => ParseString(t, q, flags)
    case 'n' => if Literal(t, q, "null") then Parsed(Null, q + 4) else Failed
    case 't' => if Literal(t, q, "true") then Parsed(Boolean(true), q + 4) else Failed
    case 'f' => if Literal(t, q, "false") then Parsed(Boolean(false), q + 5) else Failed
    case c =>
      if c == '-' || c == '+' || c == '.' || IsDigit(c) then ParseNumber(t, q, host) else
      if flags.unquotedKeys then ParseString(t, q, flags) else Failed
  }

  /** Behind the opening bracket or behind an element: commas are optional, and the end of the
      text ends the array as well as a bracket does. */
  function ParseElements(t: string, p: nat, flags: Flags, host: Host, done: seq<Json>): (r: Parsed)
    requires p <= |t|
    ensures r.Parsed? ==> p <= r.end <= |t| && r.value.Array?
    decreases |t| - p, 2
  {
    var q := SkipBlanks(t, p, flags);
    if q == |t| then Parsed(Array(done), q) else
    if t[q] == ']' then Parsed(Array(done), q + 1) else
    var element := ParseValue(t, q, flags, host);
    if element.Failed? then Failed else
    ParseElements(t, SkipComma(t, element.end), flags, host, done + [element.value])
  }

  function SkipComma(t: string, p: nat): (q: nat)
    requires p <= |t|
    ensures p <= q <= |t|
  {
    var w := SkipWhite(t, p);
    if w < |t| && t[w] == ',' then w + 1 else w
  }

  /** A member's key, up to and with its colon: any value may stand there, only a string passes. */
  function ParseKey(t: string, p: nat, flags: Flags, host: Host): (r: Parsed)
    requires p <= |t|
    ensures r.Parsed? ==> p < r.end <= |t| && r.value.Text?
    decreases |t| - p, 2
  {
    var key := ParseValue(t, p, flags, host);
    if key.Failed? || !key.value.Text? then Failed else
    var colon := SkipWhite(t, key.end);
    if colon == |t| || t[colon] != ':' then Failed else Parsed(key.value, colon + 1)
  }

  function ParseMembers(t: string, p: nat, flags: Flags, host: Host, done: seq<Member>): (r: Parsed)
    requires p <= |t|
    ensures r.Parsed? ==> p <= r.end <= |t| && r.value.Object?
    decreases |t| - p, 3
  {
    var q := SkipBlanks(t, p, flags);
    if q == |t| then Parsed(Object(done), q) else
    if t[q] == '}' then Parsed(Object(done), q + 1) else
    var key := ParseKey(t, q, flags, host);
    if key.Failed? then Failed else
    var value := ParseValue(t, key.end, flags, host);
    if value.Failed? then Failed else
    ParseMembers(t, SkipComma(t, value.end), flags, host, done + [Member(key.value.text, value.value)])
  }

  /** `mp_json_parse`: one value, then blanks only. */
  function Parse(t: string, flags: Flags, host: Host): Option<Json> {
    var r := ParseValue(t, 0, flags, host);
    if r.Failed? || SkipBlanks(t, r.end, flags) < |t| then None else Some(r.value)
  }

  // ---------------------------------------------------------------- the parser object

  class Parser {
    const input: string
    const flags: Flags
    const host: Host
    var position: nat

    ghost predicate Valid()
      reads this
    {
      position <= |input|
    }

    constructor (input: string, flags: Flags, host: Host)
      ensures Valid() && position == 0
      ensures this.input == CString(input) && this.flags == flags && this.host == host
    {
      this.input, this.flags, this.host, position := CString(input), flags, host, 0;
    }

    method SkipWhitespace()
      requires Valid()
      modifies this
      ensures Valid() && position == SkipWhite(input, old(position))
    {
      while position < |input| && IsWhite(input[position])
        invariant Valid() && SkipWhite(input, position) == SkipWhite(input, old(position))
      {
        position := position + 1;
      }
    }

    method SkipOneComment() returns (skipped: bool)
      requires Valid()
      modifies this
      ensures Valid() && SkipComment(input, old(position), flags) == Comment(skipped, position)
    {
      if !flags.comments {
        return false;
      }
      if position + 1 < |input| {
        if input[position] == '/' && input[position + 1] == '/' {
          position := position + 2;
          while position < |input| && input[position] != '\n'
            invariant Valid() && LineEnd(input, position) == LineEnd(input, old(position) + 2)
          {
            position := position + 1;
          }
          return true;
        } else if input[position] == '/' && input[position + 1] == '*' {
          position := position + 2;
          while position + 1 < |input|
            invariant Valid() && BlockEnd(input, position) == BlockEnd(input, old(position) + 2)
          {
            if input[position] == '*' && input[position + 1] == '/' {
              position := position + 2;
              return true;
            }
            position := position + 1;
          }
          return false;
        }
      }
      skipped := false;
    }

    /** The idiom before every value: white space, then comments as long as one is skipped. */
    method SkipAllBlanks()
      requires Valid()
      modifies this
      ensures Valid() && position == SkipBlanks(input, old(position), flags)
    {
      SkipWhitespace();
      var skipped := SkipOneComment();
      while skipped
        invariant Valid()
        invariant SkipBlanks(input, old(position), flags) == if skipped then SkipBlanks(input, position, flags) else position
        decreases |input| - position, skipped
      {
        SkipWhitespace();
        skipped := SkipOneComment();
      }
    }

    method ReadNumber() returns (r: Json)
      requires Valid()
      modifies this
      ensures Valid() && ParseNumber(input, old(position), host) == Parsed(r, position)
    {
      var start := position;
      while position < |input| && InNumber(input[position])
        invariant Valid() && start <= position && NumberEnd(input, position) == NumberEnd(input, start)
      {
        position := position + 1;
      }
      var s := input[start..position];
      var isInteger := true;
      for i := 0 to |s|
        invariant isInteger && forall j :: 0 <= j < i ==> s[j] != '.' && s[j] != 'e' && s[j] != 'E'
      {
        if s[i] == '.' || s[i] == 'e' || s[i] == 'E' {
          isInteger := false;
          break;
        }
      }
      if isInteger {
        var n := Strtoll(s);
        r := Number(true, n, host.double(n));
      } else {
        var x := host.strtod(s);
        r := Number(false, host.truncate(x), x);
      }
    }

    method ReadString() returns (r: Option<Json>)
      requires Valid()
      modifies this
      ensures Valid() && position >= old(position)
      ensures Agrees(ParseString(input, old(position), flags), r)
    {
      if position >= |input| {
        return None;
      }
      var quote := input[position];
      if (quote != '"' && !flags.singleQuotes) || quote != '\'' {
        return None;
      }
      position := position + 1;
      var start := position;
      var ok;
      position, ok := Strings.FindClosingQuote(input, start, quote);
      if !ok {
        return None;
      }
      var value := Strings.UnescapeRange(input, start, position);
      position := position + 1;
      r := Some(Text(value));
    }

    /** The object did what the function says: same failure, or same value and same position. */
    predicate Agrees(expected: Parsed, r: Option<Json>)
      reads this
    {
      match expected
      case Failed => r.None?
      case Parsed(value, end) => r == Some(value) && position == end
    }

    method ReadWord(word: string, meaning: Json) returns (r: Option<Json>)
      requires Valid()
      modifies this
      ensures Valid() && position >= old(position)
      ensures Agrees(if Literal(input, old(position), word) then Parsed(meaning, old(position) + |word|) else Failed, r)
    {
      if position + |word| <= |input| && input[position..position + |word|] == word {
        position := position + |word|;
        return Some(meaning);
      }
      r := None;
    }

    method ReadValue() returns (r: Option<Json>)
      requires Valid()
      modifies this
      ensures Valid() && position >= old(position)
      ensures Agrees(ParseValue(input, old(position), flags, host), r)
      decreases |input| - position, 1
    {
      SkipAllBlanks();
      if position >= |input| {
        return None;
      }
      match input[position]
      case '{' => r := ReadObject();
      case '[' => r := ReadArray();
      case '"' => r := ReadString();
      case '\'' => r := ReadString();
      case 'n' => r := ReadWord("null", Null);
      case 't' => r := ReadWord("true", Boolean(true));
      case 'f' => r := ReadWord("false", Boolean(false));
      case c =>
        if c == '-' || c == '+' || c == '.' || IsDigit(c) {
          var number := ReadNumber();
          r := Some(number);
        } else if flags.unquotedKeys {
          r := ReadString();
        } else {
          r := None;
        }
    }

    method ReadArray() returns (r: Option<Json>)
      requires Valid() && position < |input| && input[position] == '['
      modifies this
      ensures Valid() && position >= old(position)
      ensures Agrees(ParseElements(input, old(position) + 1, flags, host, []), r)
      decreases |input| - position, 0
    {
      hide ParseValue, ParseKey, ParseMembers, SkipBlanks, SkipWhite, SkipComma;
      position := position + 1;
      var elements: seq<Json> := [];
      while true
        invariant Valid() && position > old(position)
        invariant ParseElements(input, position, flags, host, elements)
               == ParseElements(input, old(position) + 1, flags, host, [])
        decreases |input| - position
      {
        SkipAllBlanks();
        if position >= |input| {
          return Some(Array(elements));
        }
        if input[position] == ']' {
          position := position + 1;
          return Some(Array(elements));
        }
        var element := ReadValue();
        if element.None? {
          return None;
        }
        elements := elements + [element.value];
        SkipOneComma();
      }
    }

    method SkipOneComma()
      requires Valid()
      modifies this
      ensures Valid() && position == SkipComma(input, old(position))
    {
      SkipWhitespace();
      if position < |input| && input[position] == ',' {
        position := position + 1;
      }
    }

    method ReadKey() returns (r: Option<Json>)
      requires Valid()
      modifies this
      ensures Valid() && position >= old(position)
      ensures Agrees(ParseKey(input, old(position), flags, host), r)
      decreases |input| - position, 2
    {
      r := ReadValue();
      if r.None? || !r.value.Text? {
        return None;
      }
      SkipWhitespace();
      if position >= |input| || input[position] != ':' {
        return None;
      }
      position := position + 1;
    }

    method ReadObject() returns (r: Option<Json>)
      requires Valid() && position < |input| && input[position] == '{'
      modifies this
      ensures Valid() && position >= old(position)
      ensures Agrees(ParseMembers(input, old(position) + 1, flags, host, []), r)
      decreases |input| - position, 0
    {
      hide ParseValue, ParseKey, ParseElements, SkipBlanks, SkipWhite, SkipComma;
      position := position + 1;
      var members: seq<Member> := [];
      while true
        invariant Valid() && position > old(position)
        invariant ParseMembers(input, position, flags, host, members)
               == ParseMembers(input, old(position) + 1, flags, host, [])
        decreases |input| - position
      {
        SkipAllBlanks();
        if position >= |input| {
          return Some(Object(members));
        }
        if input[position] == '}' {
          position := position + 1;
          return Some(Object(members));
        }
        var key := ReadKey();
        if key.None? {
          return None;
        }
        var value := ReadValue();
        if value.None? {
          return None;
        }
        members := members + [Member(key.value.text, value.value)];
        SkipOneComma();
      }
    }

    method ParseAll() returns (r: Option<Json>)
      requires Valid()
      modifies this
      ensures Valid() && r == Parse(input, flags, host)
    {
      position := 0;
      r := ReadValue();
      if r.None? {
        return;
      }
      SkipAllBlanks();
      if position < |input| {
        r := None;
      }
    }
  }
}
