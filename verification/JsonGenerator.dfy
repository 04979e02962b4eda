/** The JSON generator: the text of a value, compact or pretty, and the object that writes it into
    a growing, NUL-terminated buffer. */
module JsonGenerator {
  import opened Bytes
  import opened JsonTree
  import Strings = JsonStrings

  // ---------------------------------------------------------------- the text of a value

  function Digits(n: nat): (s: string)
    ensures s != [] && forall i :: 0 <= i < |s| ==> '0' <= s[i] <= '9'
  {
    if n < 10 then ['0' + n as char] else Digits(n / 10) + ['0' + (n % 10) as char]
  }

  /** `%lld`. */
  function Decimal(n: int): (s: string)
    ensures '\0' !in s
  {
    if n < 0 then "-" + Digits(-n) else Digits(n)
  }

  /** A double that equals its integer part is printed as that integer. */
  function NumberText(v: Json, host: Host): string
    requires v.Number?
  {
    if v.isInteger || v.value == host.double(v.integer) then Decimal(v.integer) else CString(host.format(v.value))
  }

  /** How values are spelled. `level` is only looked at, and only changed, when pretty. The generator
      always quotes with `"` and separates with a comma; other spellings are here to state what the
      parser does with them. */
  datatype Layout = Layout(pretty: bool, level: int, quote: char, comma: char) {
    function Quoted(s: string): string {
      [quote] + (Strings.Escape(s) + [quote])
    }

    function Newline(): string {
      if pretty then "\n" else ""
    }

    function Indent(): string
      decreases level
    {
      if pretty && level > 0 then "  " + this.(level := level - 1).Indent() else ""
    }

    function Deeper(): Layout {
      if pretty then this.(level := level + 1) else this
    }

    /** What stands between the last element and the closing bracket. */
    function Dedent(): string {
      Newline() + Indent()
    }

    function Colon(): string {
      if pretty then ": " else ":"
    }
  }

  function Generate(v: Json, layout: Layout, host: Host): string
    decreases v, 1
  {
    match v
    case Null => "null"
    case Boolean(flag) => if flag then "true" else "false"
    case Number(_, _, _) => NumberText(v, host)
    case Text(text) => layout.Quoted(text)
    case Array(xs) =>
      ['['] + (layout.Newline() + (Elements(xs, layout.Deeper(), host) + (layout.Dedent() + [']'])))
    case Object(ms) =>
      ['{'] + (layout.Newline() + (Members(ms, layout.Deeper(), host) + (layout.Dedent() + ['}'])))
  }

  function Separator(more: bool, layout: Layout): string {
    if more then [layout.comma] + layout.Newline() else ""
  }

  function Elements(xs: seq<Json>, layout: Layout, host: Host): string
    decreases xs, 0
  {
    if xs == [] then "" else
    layout.Indent() + (Generate(xs[0], layout, host) + (Separator(|xs| > 1, layout) + Elements(xs[1..], layout, host)))
  }

  function Members(ms: seq<Member>, layout: Layout, host: Host): string
    decreases ms, 0
  {
    if ms == [] then "" else
    layout.Indent() + (layout.Quoted(ms[0].key) + (layout.Colon() +
      (Generate(ms[0].value, layout, host) + (Separator(|ms| > 1, layout) + Members(ms[1..], layout, host)))))
  }

  // ---------------------------------------------------------------- the generator object

  /** A generator made by `mp_json_generator_init_with_allocator`; the allocator grants what it is
      asked for and keeps what was written. */
  class Generator {
    var buffer: array<char>
    var position: nat
    var layout: Layout
    const host: Host

    /** Once there is a buffer, the text in it is NUL-terminated. */
    ghost predicate Valid()
      reads this, buffer
    {
      && layout.quote == '"' && layout.comma == ','
      && if buffer.Length == 0 then position == 0 else position < buffer.Length && buffer[position] == '\0'
    }

    function Contents(): string
      reads this, buffer
      requires Valid()
    {
      buffer[..position]
    }

    twostate predicate Regrown()
      reads this
    {
      buffer == old(buffer) || (fresh(buffer) && buffer.Length > 0)
    }

    constructor (initialCapacity: nat, pretty: bool, level: int, host: Host)
      ensures Valid() && fresh(buffer) && buffer.Length == initialCapacity
      ensures Contents() == "" && layout == Layout(pretty, level, '"', ',') && this.host == host
    {
      position, layout, this.host := 0, Layout(pretty, level, '"', ','), host;
      buffer := new char[initialCapacity];
      new;
      if initialCapacity > 0 {
        buffer[0] := '\0';
      }
    }

    /** Doubles the capacity, from 256 if there is none, until `needed` characters and the
        terminator fit. */
    method EnsureCapacity(needed: nat)
      requires Valid()
      modifies this`buffer
      ensures Regrown() && position + needed < buffer.Length
      ensures buffer[..position] == old(buffer[..position])
    {
      if position + needed < buffer.Length {
        return;
      }
      var newCapacity := if buffer.Length == 0 then 256 else buffer.Length * 2;
      while position + needed >= newCapacity
        invariant newCapacity > 0
        decreases position + needed - newCapacity
      {
        newCapacity := newCapacity * 2;
      }
      var newBuffer := new char[newCapacity];
      for i := 0 to position
        invariant buffer == old(buffer) && newBuffer[..i] == buffer[..i]
      {
        newBuffer[i] := buffer[i];
      }
      buffer := newBuffer;
    }

    method WriteChar(c: char)
      requires Valid()
      modifies this`buffer, this`position, buffer
      ensures Valid() && Regrown() && Contents() == old(Contents()) + [c]
    {
      EnsureCapacity(1);
      if position < buffer.Length {
        buffer[position] := c;
        position := position + 1;
        buffer[position] := '\0';
      }
    }

    method WriteString(str: string)
      requires Valid()
      modifies this`buffer, this`position, buffer
      ensures Valid() && Regrown() && Contents() == old(Contents()) + CString(str)
    {
      var s := CString(str);
      EnsureCapacity(|s|);
      ghost var before := buffer[..position];
      var target := buffer;
      for i := 0 to |s|
        invariant buffer == target && position == old(position)
        invariant target[..position + i] == before + s[..i]
      {
        target[position + i] := s[i];
      }
      position := position + |s|;
      buffer[position] := '\0';
    }

    method WriteIndent()
      requires Valid()
      modifies this`buffer, this`position, buffer
      ensures Valid() && Regrown() && Contents() == old(Contents()) + layout.Indent()
    {
      if !layout.pretty {
        return;
      }
      var i := layout.level;
      while i > 0
        invariant Valid() && Regrown()
        invariant Contents() + layout.(level := i).Indent() == old(Contents()) + layout.Indent()
      {
        WriteString("  ");
        i := i - 1;
      }
    }

    method WriteNewline()
      requires Valid()
      modifies this`buffer, this`position, buffer
      ensures Valid() && Regrown() && Contents() == old(Contents()) + layout.Newline()
    {
      if layout.pretty {
        WriteChar('\n');
      }
    }

    method WriteEscaped(c: char)
      requires Valid()
      modifies this`buffer, this`position, buffer
      ensures Valid() && Regrown() && Contents() == old(Contents()) + Strings.EscapeChar(c)
    {
      hide CString;
      EscapeIsCString(c);
      match c
      case '"' => WriteString("\\\"");
      case '\\' => WriteString("\\\\");
      case '\U{8}' => WriteString("\\b");
      case '\U{c}' => WriteString("\\f");
      case '\n' => WriteString("\\n");
      case '\r' => WriteString("\\r");
      case '\t' => WriteString("\\t");
      case _ =>
        if c < ' ' {
          WriteString(Strings.UnicodeEscape(c));
        } else {
          WriteChar(c);
        }
    }

    method WriteQuoted(str: string)
      requires Valid()
      modifies this`buffer, this`position, buffer
      ensures Valid() && Regrown() && Contents() == old(Contents()) + layout.Quoted(str)
    {
      hide Strings.Escape, Strings.EscapeChar;
      ghost var before := Contents();
      WriteChar('"');
      ghost var start := Contents();
      assert str[0..] == str;
      for i := 0 to |str|
        invariant Valid() && Regrown()
        invariant Contents() + Strings.Escape(str[i..]) == start + Strings.Escape(str)
      {
        EscapeNext(str, i);
        WriteEscaped(str[i]);
      }
      assert str[|str|..] == [];
      EscapeNothing();
      assert Contents() == start + Strings.Escape(str);
      WriteChar('"');
      Regroup(start, Strings.Escape(str), ['"']);
      Regroup(before, ['"'], Strings.Escape(str) + ['"']);
    }

    method WriteNumber(v: Json)
      requires Valid() && v.Number?
      modifies this`buffer, this`position, buffer
      ensures Valid() && Regrown() && Contents() == old(Contents()) + NumberText(v, host)
    {
      if v.isInteger {
        WriteString(Decimal(v.integer));
      } else if v.value == host.double(v.integer) {
        WriteString(Decimal(v.integer));
      } else {
        WriteString(host.format(v.value));
      }
    }

    method WriteWord(word: string)
      requires Valid() && '\0' !in word
      modifies this`buffer, this`position, buffer
      ensures Valid() && Regrown() && Contents() == old(Contents()) + word
    {
      WriteString(word);
    }

    method WriteValue(v: Json)
      requires Valid()
      modifies this, buffer
      ensures Valid() && Regrown() && layout == old(layout)
      ensures Contents() == old(Contents()) + Generate(v, layout, host)
      decreases v, 2
    {
      match v
      case Null => WriteWord("null");
      case Boolean(flag) => WriteWord(if flag then "true" else "false");
      case Number(_, _, _) => WriteNumber(v);
      case Text(text) => WriteQuoted(text);
      case Array(xs) => WriteArray(xs);
      case Object(ms) => WriteObject(ms);
    }

    method WriteOpening(bracket: char)
      requires Valid()
      modifies this, buffer
      ensures Valid() && Regrown() && layout == old(layout.Deeper())
      ensures Contents() == old(Contents()) + [bracket] + old(layout.Newline())
    {
      WriteChar(bracket);
      if layout.pretty {
        WriteNewline();
        layout := layout.(level := layout.level + 1);
      }
    }

    method WriteClosing(bracket: char, ghost outer: Layout)
      requires Valid() && layout == outer.Deeper()
      modifies this, buffer
      ensures Valid() && Regrown() && layout == outer
      ensures Contents() == old(Contents()) + (layout.Dedent() + [bracket])
    {
      if layout.pretty {
        WriteNewline();
        layout := layout.(level := layout.level - 1);
        WriteIndent();
      }
      WriteChar(bracket);
    }

    /** What precedes the `i`-th entry. */
    method WriteSeparator(i: nat)
      requires Valid()
      modifies this`buffer, this`position, buffer
      ensures Valid() && Regrown()
      ensures Contents() == old(Contents()) + Separator(i > 0, layout) + layout.Indent()
    {
      hide Layout.Indent;
      CompactHasNoIndent(layout);
      if i > 0 {
        WriteChar(',');
        if layout.pretty {
          WriteNewline();
        }
      }
      if layout.pretty {
        WriteIndent();
      }
    }

    /** One round of the array loop. */
    method WriteElement(xs: seq<Json>, i: nat)
      requires Valid() && i < |xs|
      modifies this, buffer
      ensures Valid() && Regrown() && layout == old(layout)
      ensures Contents() + ElementsFrom(xs, i + 1, layout, host) == old(Contents() + ElementsFrom(xs, i, layout, host))
      decreases xs, 0
    {
      hide Generate, ElementsFrom, Separator, Layout.Indent;
      ElementNext(xs, i, layout, host);
      ghost var before := Contents();
      WriteSeparator(i);
      WriteValue(xs[i]);
      Regroup4(before, Separator(i > 0, layout), layout.Indent(), Generate(xs[i], layout, host),
        ElementsFrom(xs, i + 1, layout, host));
    }

    method WriteArray(xs: seq<Json>)
      requires Valid()
      modifies this, buffer
      ensures Valid() && Regrown() && layout == old(layout)
      ensures Contents() == old(Contents()) + Generate(Array(xs), layout, host)
      decreases xs, 1
    {
      hide Generate, Elements, ElementsFrom, Layout.Indent;
      ghost var outer, before := layout, Contents();
      WriteOpening('[');
      ghost var start := Contents();
      ElementsFromEnds(xs, layout, host);
      for i := 0 to |xs|
        invariant Valid() && Regrown() && layout == outer.Deeper()
        invariant Contents() + ElementsFrom(xs, i, layout, host) == start + Elements(xs, layout, host)
      {
        WriteElement(xs, i);
      }
      WriteClosing(']', outer);
      GenerateArray(xs, outer, host);
      Regroup4(before, ['['], outer.Newline(), Elements(xs, outer.Deeper(), host), outer.Dedent() + [']']);
    }

    method WriteKey(key: string)
      requires Valid()
      modifies this`buffer, this`position, buffer
      ensures Valid() && Regrown()
      ensures Contents() == old(Contents()) + layout.Quoted(key) + layout.Colon()
    {
      WriteQuoted(key);
      WriteChar(':');
      if layout.pretty {
        WriteChar(' ');
      }
    }

    /** One round of the object loop. */
    method WriteMember(ms: seq<Member>, i: nat)
      requires Valid() && i < |ms|
      modifies this, buffer
      ensures Valid() && Regrown() && layout == old(layout)
      ensures Contents() + MembersFrom(ms, i + 1, layout, host) == old(Contents() + MembersFrom(ms, i, layout, host))
      decreases ms, 0
    {
      hide Generate, MembersFrom, Separator, Layout.Quoted, Layout.Indent;
      MemberNext(ms, i, layout, host);
      ghost var before := Contents();
      WriteSeparator(i);
      WriteKey(ms[i].key);
      ghost var named := Contents();
      Regroup4(before, Separator(i > 0, layout), layout.Indent(), layout.Quoted(ms[i].key) + layout.Colon(),
        Generate(ms[i].value, layout, host) + MembersFrom(ms, i + 1, layout, host));
      WriteValue(ms[i].value);
      Regroup(named, Generate(ms[i].value, layout, host), MembersFrom(ms, i + 1, layout, host));
    }

    method WriteObject(ms: seq<Member>)
      requires Valid()
      modifies this, buffer
      ensures Valid() && Regrown() && layout == old(layout)
      ensures Contents() == old(Contents()) + Generate(Object(ms), layout, host)
      decreases ms, 1
    {
      hide Generate, Members, MembersFrom, Layout.Indent;
      ghost var outer, before := layout, Contents();
      WriteOpening('{');
      ghost var start := Contents();
      MembersFromEnds(ms, layout, host);
      for i := 0 to |ms|
        invariant Valid() && Regrown() && layout == outer.Deeper()
        invariant Contents() + MembersFrom(ms, i, layout, host) == start + Members(ms, layout, host)
      {
        WriteMember(ms, i);
      }
      WriteClosing('}', outer);
      GenerateObject(ms, outer, host);
      Regroup4(before, ['{'], outer.Newline(), Members(ms, outer.Deeper(), host), outer.Dedent() + ['}']);
    }

    /** `mp_json_generate`. */
    method Run(v: Json)
      requires Valid()
      modifies this, buffer
      ensures Valid() && Regrown() && layout == old(layout)
      ensures Contents() == Generate(v, layout, host)
    {
      position := 0;
      if buffer.Length > 0 {
        buffer[0] := '\0';
      }
      WriteValue(v);
    }
  }

  // ---------------------------------------------------------------- white space

  /** Two spaces for each level, when pretty. */
  lemma {:induction false} IndentIsSpaces(layout: Layout)
    ensures |layout.Indent()| == if layout.pretty && layout.level > 0 then 2 * layout.level else 0
    ensures forall i :: 0 <= i < |layout.Indent()| ==> layout.Indent()[i] == ' '
    decreases layout.level
  {
    if layout.pretty && layout.level > 0 {
      IndentIsSpaces(layout.(level := layout.level - 1));
    }
  }

  // ---------------------------------------------------------------- what is written for a string

  /** Were the double quote accepted, the two loops of `parse_string` would find the end of what
      the generator wrote, and would give the string back exactly if none of its characters is
      lossy. */
  lemma QuotedIsRead(t: string, p: nat, s: string)
    requires p < |t| && At(t, p, ['"'] + (Strings.Escape(s) + ['"']))
    ensures var end := p + |Strings.Escape(s)| + 1;
      && Strings.ClosingQuote(t, p + 1, '"') == Strings.Found.At(end)
      && end < |t|
      && (Strings.Unescape(t[p + 1..end]) == s <==> forall i :: 0 <= i < |s| ==> !Strings.Lossy(s[i]))
  {
    hide Strings.ClosingQuote, Strings.Unescape, Strings.Escape;
    AtSplit(t, p, ['"'], Strings.Escape(s) + ['"']);
    Strings.ClosingQuoteFound(t, p + 1, s, '"');
    Strings.StringRoundTripIff(s);
  }

  /** What stands at `q` is a quoted string with its closing quote at `end`, and what is read of it is
      `s` exactly if no control character is in `s` but the five with short escapes. */
  ghost predicate QuotedAt(t: string, q: nat, end: nat, s: string) {
    && q < end < |t| && t[q] == '"' && Strings.ClosingQuote(t, q + 1, '"') == Strings.Found.At(end)
    && (Strings.Unescape(t[q + 1..end]) == s
        <==> forall i :: 0 <= i < |s| ==> s[i] >= ' ' || s[i] in "\n\r\t" || s[i] == 8 as char || s[i] == 12 as char)
  }

  /** And a colon is behind it. */
  ghost predicate KeyStands(t: string, s: string) {
    exists q: nat, end: nat :: QuotedAt(t, q, end, s) && end + 1 < |t| && t[end + 1] == ':'
  }

  lemma QuotedPlaced(t: string, p: nat, s: string, layout: Layout)
    requires layout.quote == '"' && p < |t| && At(t, p, layout.Quoted(s))
    ensures QuotedAt(t, p, p + |layout.Quoted(s)| - 1, s)
  {
    hide Strings.ClosingQuote, Strings.Unescape, Strings.Escape;
    QuotedIsRead(t, p, s);
  }

  lemma TextIsQuoted(s: string, layout: Layout, host: Host)
    requires layout.quote == '"'
    ensures var t := Generate(Text(s), layout, host); |t| >= 2 && QuotedAt(t, 0, |t| - 1, s)
  {
    hide QuotedAt, At;
    var t := Generate(Text(s), layout, host);
    AtIsSlice(t, 0, t);
    QuotedPlaced(t, 0, s, layout);
  }

  /** Six texts one behind the other, of which the second, third and last are of interest. */
  lemma PartsPlaced(t: string, p: nat, a: string, b: string, c: string, d: string, e: string, f: string)
    requires p <= |t| && At(t, p, a + (b + (c + (d + (e + f)))))
    ensures At(t, p + |a|, b) && At(t, p + |a| + |b|, c)
    ensures p + |a| + |b| + |c| + |d| + |e| + |f| <= |t| && At(t, p + |a| + |b| + |c| + |d| + |e|, f)
  {
    hide At;
    AtIsSlice(t, p, a + (b + (c + (d + (e + f)))));
    AtSplit(t, p, a, b + (c + (d + (e + f))));
    AtSplit(t, p + |a|, b, c + (d + (e + f)));
    AtSplit(t, p + |a| + |b|, c, d + (e + f));
    AtSplit(t, p + |a| + |b| + |c|, d, e + f);
    AtSplit(t, p + |a| + |b| + |c| + |d|, e, f);
  }

  /** The key and its colon stand behind the indent, and the other members behind that. */
  lemma MemberPlaced(t: string, p: nat, ms: seq<Member>, layout: Layout, host: Host) returns (q: nat, n: nat)
    requires ms != [] && p <= |t| && At(t, p, Members(ms, layout, host))
    ensures At(t, q, layout.Quoted(ms[0].key)) && q < |t|
    ensures q + |layout.Quoted(ms[0].key)| < |t| && t[q + |layout.Quoted(ms[0].key)|] == ':'
    ensures n <= |t| && At(t, n, Members(ms[1..], layout, host))
  {
    hide Layout.Indent, Generate, Layout.Quoted, Separator, At;
    var key, colon, value := layout.Quoted(ms[0].key), layout.Colon(), Generate(ms[0].value, layout, host);
    var separator, rest := Separator(|ms| > 1, layout), Members(ms[1..], layout, host);
    q := p + |layout.Indent()|;
    n := q + |key| + |colon| + |value| + |separator|;
    PartsPlaced(t, p, layout.Indent(), key, colon, value, separator, rest);
    FirstPlaced(t, q + |key|, colon);
    QuotedIsSomething(ms[0].key, layout);
  }

  lemma FirstPlaced(t: string, p: nat, s: string)
    requires s != [] && At(t, p, s)
    ensures p < |t| && t[p] == s[0]
  {}

  lemma QuotedIsSomething(s: string, layout: Layout)
    ensures |layout.Quoted(s)| >= 2
  {}

  lemma {:induction false} KeyStandsIn(t: string, p: nat, ms: seq<Member>, k: nat, layout: Layout, host: Host)
    requires layout.quote == '"' && k < |ms| && p <= |t| && At(t, p, Members(ms, layout, host))
    ensures KeyStands(t, ms[k].key)
    decreases ms
  {
    hide Members, Layout.Quoted, QuotedAt, At;
    var q, n := MemberPlaced(t, p, ms, layout, host);
    if k == 0 {
      QuotedIsSomething(ms[0].key, layout);
      QuotedPlaced(t, q, ms[0].key, layout);
      var end: nat := q + |layout.Quoted(ms[0].key)| - 1;
      assert QuotedAt(t, q, end, ms[k].key);
    } else {
      KeyStandsIn(t, n, ms[1..], k - 1, layout, host);
    }
  }

  /** Every key of an object stands in its text like that. */
  lemma KeysStand(ms: seq<Member>, layout: Layout, host: Host)
    requires layout.quote == '"'
    ensures forall i :: 0 <= i < |ms| ==> KeyStands(Generate(Object(ms), layout, host), ms[i].key)
  {
    hide Members, KeyStands, At, Layout.Indent;
    var t := Generate(Object(ms), layout, host);
    var inner, tail := Members(ms, layout.Deeper(), host), layout.Dedent() + ['}'];
    AtIsSlice(t, 0, t);
    AtSplit(t, 0, ['{'], layout.Newline() + (inner + tail));
    AtSplit(t, 1, layout.Newline(), inner + tail);
    AtSplit(t, 1 + |layout.Newline()|, inner, tail);
    forall i | 0 <= i < |ms|
      ensures KeyStands(t, ms[i].key)
    {
      KeyStandsIn(t, 1 + |layout.Newline()|, ms, i, layout.Deeper(), host);
    }
  }

  /** `mp_json_to_string`: a copy of the buffer up to its first NUL. */
  method ToString(v: Json, pretty: bool, host: Host) returns (s: string)
    ensures s == Generate(v, Layout(pretty, 0, '"', ','), host)
    ensures v.Text? ==> |s| >= 2 && QuotedAt(s, 0, |s| - 1, v.text)
    ensures v.Object? ==> forall i :: 0 <= i < |v.members| ==> KeyStands(s, v.members[i].key)
  {
    hide QuotedAt, KeyStands, Generate;
    var generator := new Generator(256, pretty, 0, host);
    generator.Run(v);
    GenerateIsCString(v, Layout(pretty, 0, '"', ','), host);
    assert generator.buffer[..][..generator.position] == generator.Contents();
    CStringEnds(generator.buffer[..], generator.position);
    s := CString(generator.buffer[..]);
    if v.Text? {
      TextIsQuoted(v.text, generator.layout, host);
    } else if v.Object? {
      KeysStand(v.members, generator.layout, host);
    }
  }

  lemma {:induction false} CStringEnds(buffer: string, n: nat)
    requires n < |buffer| && buffer[n] == '\0' && '\0' !in buffer[..n]
    ensures CString(buffer) == buffer[..n]
    decreases n
  {
    if n > 0 {
      assert buffer[..n][0] == buffer[0];
      assert buffer[1..][..n - 1] == buffer[..n][1..];
      CStringEnds(buffer[1..], n - 1);
    }
  }

  /** The generator never writes a NUL, whatever is in the value. */
  lemma {:induction false} GenerateIsCString(v: Json, layout: Layout, host: Host)
    requires layout.quote != '\0' && layout.comma != '\0'
    ensures '\0' !in Generate(v, layout, host)
    decreases v, 1
  {
    hide Layout.Indent, Elements, Members, Strings.Escape;
    match v
    case Text(text) => Strings.EscapeIsPrintable(text);
    case Array(xs) =>
      IndentIsCString(layout);
      ElementsAreCString(xs, layout.Deeper(), host);
    case Object(ms) =>
      IndentIsCString(layout);
      MembersAreCString(ms, layout.Deeper(), host);
    case _ =>
  }

  lemma {:induction false} IndentIsCString(layout: Layout)
    ensures '\0' !in layout.Indent()
    decreases layout.level
  {
    if layout.pretty && layout.level > 0 {
      IndentIsCString(layout.(level := layout.level - 1));
    }
  }

  lemma {:induction false} ElementsAreCString(xs: seq<Json>, layout: Layout, host: Host)
    requires layout.quote != '\0' && layout.comma != '\0'
    ensures '\0' !in Elements(xs, layout, host)
    decreases xs, 0
  {
    hide Generate, Layout.Indent;
    if xs != [] {
      IndentIsCString(layout);
      GenerateIsCString(xs[0], layout, host);
      ElementsAreCString(xs[1..], layout, host);
    }
  }

  lemma {:induction false} MembersAreCString(ms: seq<Member>, layout: Layout, host: Host)
    requires layout.quote != '\0' && layout.comma != '\0'
    ensures '\0' !in Members(ms, layout, host)
    decreases ms, 0
  {
    hide Generate, Layout.Indent, Strings.Escape;
    if ms != [] {
      IndentIsCString(layout);
      Strings.EscapeIsPrintable(ms[0].key);
      GenerateIsCString(ms[0].value, layout, host);
      MembersAreCString(ms[1..], layout, host);
    }
  }

  /** What the loop still has to write before the `i`-th member. */
  function MembersFrom(ms: seq<Member>, i: nat, layout: Layout, host: Host): string
    requires i <= |ms|
  {
    Separator(0 < i < |ms|, layout) + Members(ms[i..], layout, host)
  }

  lemma MemberNext(ms: seq<Member>, i: nat, layout: Layout, host: Host)
    requires i < |ms|
    ensures MembersFrom(ms, i, layout, host)
         == Separator(i > 0, layout) + (layout.Indent() + ((layout.Quoted(ms[i].key) + layout.Colon())
          + (Generate(ms[i].value, layout, host) + MembersFrom(ms, i + 1, layout, host))))
  {
    hide Generate, Layout.Quoted;
    assert ms[i..][1..] == ms[i + 1..];
    Regroup(layout.Quoted(ms[i].key), layout.Colon(), Generate(ms[i].value, layout, host) + MembersFrom(ms, i + 1, layout, host));
  }

  lemma MembersFromEnds(ms: seq<Member>, layout: Layout, host: Host)
    ensures MembersFrom(ms, |ms|, layout, host) == ""
    ensures MembersFrom(ms, 0, layout, host) == Members(ms, layout, host)
  {
    assert ms[0..] == ms;
  }

  lemma GenerateObject(ms: seq<Member>, layout: Layout, host: Host)
    ensures Generate(Object(ms), layout, host)
         == ['{'] + (layout.Newline() + (Members(ms, layout.Deeper(), host) + (layout.Dedent() + ['}'])))
  {
  }

  lemma CompactHasNoIndent(layout: Layout)
    ensures !layout.pretty ==> layout.Indent() == ""
  {
  }

  /** What the loop still has to write before the `i`-th element. */
  function ElementsFrom(xs: seq<Json>, i: nat, layout: Layout, host: Host): string
    requires i <= |xs|
  {
    Separator(0 < i < |xs|, layout) + Elements(xs[i..], layout, host)
  }

  lemma ElementNext(xs: seq<Json>, i: nat, layout: Layout, host: Host)
    requires i < |xs|
    ensures ElementsFrom(xs, i, layout, host)
         == Separator(i > 0, layout) + (layout.Indent() + (Generate(xs[i], layout, host) + ElementsFrom(xs, i + 1, layout, host)))
  {
    hide Generate;
    assert xs[i..][1..] == xs[i + 1..];
  }

  lemma Regroup(a: string, b: string, c: string)
    ensures (a + b) + c == a + (b + c)
  {
  }

  lemma Regroup4(a: string, b: string, c: string, d: string, e: string)
    ensures (((a + b) + c) + d) + e == a + (b + (c + (d + e)))
  {
    Regroup(a, b, c + (d + e));
    Regroup(a + b, c, d + e);
    Regroup(a + b + c, d, e);
  }

  lemma ElementsFromEnds(xs: seq<Json>, layout: Layout, host: Host)
    ensures ElementsFrom(xs, |xs|, layout, host) == ""
    ensures ElementsFrom(xs, 0, layout, host) == Elements(xs, layout, host)
  {
    assert xs[0..] == xs;
  }

  lemma GenerateArray(xs: seq<Json>, layout: Layout, host: Host)
    ensures Generate(Array(xs), layout, host)
         == ['['] + (layout.Newline() + (Elements(xs, layout.Deeper(), host) + (layout.Dedent() + [']'])))
  {
  }

  lemma EscapeNothing()
    ensures Strings.Escape([]) == []
  {
  }

  lemma EscapeIsCString(c: char)
    ensures CString(Strings.EscapeChar(c)) == Strings.EscapeChar(c)
  {
    hide CString;
    assert '\0' !in Strings.EscapeChar(c);
  }

  lemma EscapeNext(s: string, i: nat)
    requires i < |s|
    ensures Strings.Escape(s[i..]) == Strings.EscapeChar(s[i]) + Strings.Escape(s[i + 1..])
  {
    hide Strings.EscapeChar;
    assert s[i..][1..] == s[i + 1..];
  }
}
