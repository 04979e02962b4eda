/** String literals of the JSON module: how the generator escapes a string, how the parser looks
    for the closing quote, and how it undoes the escapes. A C `char` is a Dafny `char`. */
module JsonStrings {
  import opened Bytes

  // ---------------------------------------------------------------- the generator's side

  function HexDigit(n: nat): (c: char)
    requires n < 16
    ensures c == "0123456789abcdef"[n]
  {
    if n < 10 then '0' + n as char else 'a' + (n - 10) as char
  }

  /** The six characters written for a control character that has no short escape. */
  function UnicodeEscape(c: char): (e: string)
    requires c < ' '
    ensures |e| == 6
  {
    "\\u00" + [HexDigit(c as int / 16), HexDigit(c as int % 16)]
  }

  predicate HasShortEscape(c: char) {
    c in "\"\\\n\r\t" || c == '\U{8}' || c == '\U{c}'
  }

  function ShortEscape(c: char): char
    requires HasShortEscape(c)
  {
    if c == '\U{8}' then 'b' else
    if c == '\U{c}' then 'f' else
    if c == '\n' then 'n' else
    if c == '\r' then 'r' else
    if c == '\t' then 't' else c
  }

  /** A control character that comes back from a round trip as its escape. */
  predicate Lossy(c: char) {
    c < ' ' && !HasShortEscape(c)
  }

  function EscapeChar(c: char): (e: string)
    ensures e != []
  {
    if HasShortEscape(c) then ['\\', ShortEscape(c)] else
    if Lossy(c) then UnicodeEscape(c) else [c]
  }

  function Escape(s: string): string {
    if s == [] then [] else EscapeChar(s[0]) + Escape(s[1..])
  }

  /** Whatever is escaped, nothing below the space survives: the output is one C string. */
  lemma {:induction false} EscapeIsPrintable(s: string)
    ensures forall i :: 0 <= i < |Escape(s)| ==> Escape(s)[i] >= ' '
  {
    if s != [] {
      EscapeIsPrintable(s[1..]);
      assert forall i :: 0 <= i < |EscapeChar(s[0])| ==> EscapeChar(s[0])[i] >= ' ';
    }
  }

  // ---------------------------------------------------------------- the parser's side

  datatype Found = Missing | At(index: nat)

  /** The search for the closing quote from position `p` on: a backslash hides its successor. */
  function ClosingQuote(t: string, p: nat, quote: char): (f: Found)
    requires p <= |t|
    ensures f.At? ==> p <= f.index < |t| && t[f.index] == quote
    decreases |t| - p
  {
    if p == |t| then Missing else
    if t[p] == quote then Found.At(p) else
    if t[p] != '\\' then ClosingQuote(t, p + 1, quote) else
    if p + 1 == |t| then Missing else ClosingQuote(t, p + 2, quote)
  }

  /** The character that a two-character escape stands for. */
  function Unletter(c: char): char {
    match c
    case 'b' => '\U{8}'
    case 'f' => '\U{c}'
    case 'n' => '\n'
    case 'r' => '\r'
    case 't' => '\t'
    case _ => c
  }

  /** How many characters one round of the unescaping loop consumes. */
  function Consumed(t: string): (n: nat)
    requires t != []
    ensures 1 <= n <= |t|
  {
    if t[0] != '\\' || |t| == 1 then 1 else
    if t[1] != 'u' then 2 else
    if 5 < |t| then 6 else 1
  }

  /** What that round emits. A unicode escape with four characters after it is copied as it
      stands; with fewer, only its backslash is lost. A backslash at the very end stands for
      itself. */
  function Emitted(t: string): (s: string)
    requires t != []
    ensures |s| <= Consumed(t)
  {
    if t[0] != '\\' || |t| == 1 then [t[0]] else
    if t[1] != 'u' then [Unletter(t[1])] else
    if 5 < |t| then t[..6] else []
  }

  /** Undoing the escapes of the text between the quotes. */
  function Unescape(t: string): (s: string)
    ensures |s| <= |t|
  {
    if t == [] then [] else Emitted(t) + Unescape(t[Consumed(t)..])
  }

  /** A unicode escape is never undone: with four characters behind the `u` all six stay, and with
      fewer only the backslash goes. */
  lemma UnicodeStays(rest: string)
    ensures Unescape("\\u" + rest)
         == if |rest| >= 4 then ("\\u" + rest[..4]) + Unescape(rest[4..]) else Unescape("u" + rest)
  {
    hide Unescape, Consumed, Emitted;
    var t := "\\u" + rest;
    UnescapeStep(t);
    UnicodeRound(rest);
  }

  lemma UnicodeRound(rest: string)
    ensures var t := "\\u" + rest;
      && Emitted(t) == (if |rest| >= 4 then "\\u" + rest[..4] else [])
      && t[Consumed(t)..] == if |rest| >= 4 then rest[4..] else "u" + rest
  {
    var t := "\\u" + rest;
    assert t[0] == '\\' && t[1] == 'u';
    assert |rest| >= 4 ==> t[..6] == "\\u" + rest[..4] && t[6..] == rest[4..];
    assert t[1..] == "u" + rest;
  }

  lemma UnescapeStep(t: string)
    requires t != []
    ensures Unescape(t) == Emitted(t) + Unescape(t[Consumed(t)..])
  {}

  // ---------------------------------------------------------------- the two sides together

  /** The part of a string in front of its first single quote. */
  function UpToSingle(s: string): (b: string)
    ensures b <= s
    ensures b == s <==> '\'' !in s
  {
    if s == [] || s[0] == '\'' then [] else [s[0]] + UpToSingle(s[1..])
  }

  /** How much of an escaped string a search for this quote passes over: single quotes are the ones
      that the generator leaves unescaped. */
  function Reached(s: string, quote: char): string {
    if quote == '\'' then UpToSingle(s) else s
  }

  /** With the escaped text standing before a quote, the search stops at that quote, or at the first
      single quote in the text if it is single quotes that are looked for. */
  lemma {:induction false} ClosingQuoteFound(t: string, p: nat, s: string, quote: char)
    requires quote == '"' || quote == '\''
    requires p <= |t| && Bytes.At(t, p, Escape(s) + [quote])
    ensures var found := p + |Escape(Reached(s, quote))|;
      ClosingQuote(t, p, quote) == Found.At(found) && found < |t| && t[p..found] == Escape(Reached(s, quote))
    decreases |s|
  {
    hide EscapeChar, ClosingQuote;
    if s == [] {
      assert Escape(s) + [quote] == [quote];
      QuoteIsFound(t, p, quote);
    } else {
      var e, rest := EscapeChar(s[0]), Escape(s[1..]) + [quote];
      assert Escape(s) + [quote] == e + rest;
      AtSplit(t, p, e, rest);
      AtIsSlice(t, p, e);
      EscapedIsStepped(t, p, s[0], quote);
      if !(s[0] == quote == '\'') {
        ClosingQuoteFound(t, p + |e|, s[1..], quote);
        ReachedGrows(t, p, s, quote);
      } else {
        SingleIsThere(t, p);
      }
    }
  }

  lemma ReachedGrows(t: string, p: nat, s: string, quote: char)
    requires s != [] && !(s[0] == quote == '\'')
    requires var e, there := EscapeChar(s[0]), Escape(Reached(s[1..], quote));
      p + |e| + |there| <= |t| && t[p..p + |e|] == e && t[p + |e|..p + |e| + |there|] == there
    ensures var here := Escape(Reached(s, quote));
      && here == EscapeChar(s[0]) + Escape(Reached(s[1..], quote))
      && t[p..p + |here|] == here
  {
    hide EscapeChar;
    var e, there := EscapeChar(s[0]), Reached(s[1..], quote);
    assert Reached(s, quote) == [s[0]] + there;
    assert ([s[0]] + there)[1..] == there;
    assert t[p..p + |e|] + t[p + |e|..p + |e| + |Escape(there)|] == t[p..p + |e| + |Escape(there)|];
  }

  lemma SingleIsThere(t: string, p: nat)
    requires p < |t| && ClosingQuote(t, p, '\'') == Found.At(p)
    ensures t[p..p] == Escape([])
  {
  }

  lemma QuoteIsFound(t: string, p: nat, quote: char)
    requires p <= |t| && Bytes.At(t, p, [quote])
    ensures ClosingQuote(t, p, quote) == Found.At(p)
  {
  }

  /** One escaped character is stepped over, unless it is the quote that is looked for. */
  lemma EscapedIsStepped(t: string, p: nat, c: char, quote: char)
    requires quote == '"' || quote == '\''
    requires p + |EscapeChar(c)| <= |t| && t[p..p + |EscapeChar(c)|] == EscapeChar(c)
    ensures c == '\'' == quote ==> ClosingQuote(t, p, quote) == Found.At(p)
    ensures c == quote == '\'' || ClosingQuote(t, p, quote) == ClosingQuote(t, p + |EscapeChar(c)|, quote)
  {
    var e := EscapeChar(c);
    assert t[p] == t[p..p + |e|][0] && (|e| > 1 ==> t[p + 1] == t[p..p + |e|][1]);
    if Lossy(c) {
      assert t[p + 2] == e[2] && t[p + 3] == e[3] && t[p + 4] == e[4] && t[p + 5] == e[5];
      assert ClosingQuote(t, p, quote) == ClosingQuote(t, p + 2, quote);
      assert ClosingQuote(t, p + 2, quote) == ClosingQuote(t, p + 4, quote);
      assert ClosingQuote(t, p + 4, quote) == ClosingQuote(t, p + 6, quote);
    }
  }

  /** What a round trip makes of a string: lossy characters stay in escaped form. */
  function Surviving(s: string): (r: string)
    ensures |r| >= |s|
  {
    if s == [] then [] else
    (if Lossy(s[0]) then UnicodeEscape(s[0]) else [s[0]]) + Surviving(s[1..])
  }

  /** One round of unescaping undoes one escape, or keeps it whole. */
  lemma EscapeIsOneRound(c: char, rest: string)
    ensures Consumed(EscapeChar(c) + rest) == |EscapeChar(c)|
    ensures Emitted(EscapeChar(c) + rest) == if Lossy(c) then UnicodeEscape(c) else [c]
  {
    var e := EscapeChar(c);
    assert (e + rest)[0] == e[0];
    if |e| > 1 {
      assert (e + rest)[1] == e[1];
      assert (e + rest)[..|e|] == e;
    }
  }

  lemma {:induction false} UnescapeEscape(s: string)
    ensures Unescape(Escape(s)) == Surviving(s)
  {
    hide EscapeChar, Emitted, Consumed, UnicodeEscape, Lossy;
    if s != [] {
      var e, rest := EscapeChar(s[0]), Escape(s[1..]);
      UnescapeEscape(s[1..]);
      EscapeIsOneRound(s[0], rest);
      assert (e + rest)[|e|..] == rest;
    }
  }

  /** The round trip gives a string back exactly when its only control characters are the five
      that have short escapes. */
  lemma {:induction false} StringRoundTripIff(s: string)
    ensures Unescape(Escape(s)) == s <==> forall i :: 0 <= i < |s| ==> !Lossy(s[i])
  {
    UnescapeEscape(s);
    SurvivingLength(s);
  }

  /** Nor does a string come back from its part in front of a single quote. */
  lemma {:induction false} SurvivingReached(s: string)
    ensures Surviving(UpToSingle(s)) == s <==> '\'' !in s && forall i :: 0 <= i < |s| ==> !Lossy(s[i])
  {
    if s != [] && s[0] != '\'' {
      var up := UpToSingle(s[1..]);
      assert UpToSingle(s)[1..] == up;
      SurvivingReached(s[1..]);
      assert s == [s[0]] + s[1..];
      assert forall i :: 0 <= i < |s[1..]| ==> s[1..][i] == s[i + 1];
      if !Lossy(s[0]) {
        assert Surviving(UpToSingle(s)) == [s[0]] + Surviving(up);
        assert Surviving(UpToSingle(s))[1..] == Surviving(up);
      } else {
        assert Surviving(UpToSingle(s))[0] == '\\';
      }
    }
  }

  lemma {:induction false} SurvivingLength(s: string)
    ensures Surviving(s) == s <==> forall i :: 0 <= i < |s| ==> !Lossy(s[i])
    ensures (exists i :: 0 <= i < |s| && Lossy(s[i])) ==> |Surviving(s)| > |s|
  {
    if s != [] {
      SurvivingLength(s[1..]);
      assert forall i :: 0 <= i < |s[1..]| ==> s[1..][i] == s[i + 1];
      assert s == [s[0]] + s[1..];
      if !Lossy(s[0]) {
        assert Surviving(s)[1..] == Surviving(s[1..]);
      }
    }
  }

  // ---------------------------------------------------------------- the loops

  /** The scan of `parse_string`; a missing quote leaves the position at the end. */
  method FindClosingQuote(t: string, start: nat, quote: char) returns (position: nat, ok: bool)
    requires start <= |t|
    ensures ok == ClosingQuote(t, start, quote).At?
    ensures ok ==> position == ClosingQuote(t, start, quote).index
    ensures !ok ==> position == |t|
  {
    position := start;
    while position < |t| && t[position] != quote
      invariant start <= position <= |t|
      invariant ClosingQuote(t, position, quote) == ClosingQuote(t, start, quote)
    {
      if t[position] == '\\' {
        position := position + 1;
        if position >= |t| {
          return position, false;
        }
      }
      position := position + 1;
    }
    ok := position < |t|;
  }

  lemma UnescapeRound(t: string, i: nat, end: nat, value: string)
    requires i < end <= |t|
    ensures i + Consumed(t[i..end]) <= end
    ensures value + Unescape(t[i..end])
         == value + Emitted(t[i..end]) + Unescape(t[i + Consumed(t[i..end])..end])
  {
    hide Emitted, Consumed;
    var rest := t[i..end];
    assert rest[Consumed(rest)..] == t[i + Consumed(rest)..end];
  }

  /** The copying loop of `parse_string`, over the characters from `start` to `end`. */
  method UnescapeRange(t: string, start: nat, end: nat) returns (value: string)
    requires start <= end <= |t|
    ensures value == Unescape(t[start..end])
  {
    hide Unescape;
    value := [];
    var i := start;
    while i < end
      invariant start <= i <= end
      invariant value + Unescape(t[i..end]) == Unescape(t[start..end])
      decreases end - i
    {
      UnescapeRound(t, i, end, value);
      var emitted, next := UnescapeOne(t, i, end);
      value := value + emitted;
      i := next + 1;
    }
    assert t[i..end] == [];
    UnescapeNothing();
  }

  lemma UnescapeNothing()
    ensures Unescape([]) == []
  {
  }

  /** The switch of the copying loop: what is emitted, and where the index stands before the
      loop's own increment. */
  method UnescapeOne(t: string, start: nat, end: nat) returns (emitted: string, i: nat)
    requires start < end <= |t|
    ensures emitted == Emitted(t[start..end])
    ensures i + 1 == start + Consumed(t[start..end])
  {
    i := start;
    if t[i] == '\\' && i + 1 < end {
      match t[i + 1]
      case '"' => emitted := ['"']; i := i + 1;
      case '\\' => emitted := ['\\']; i := i + 1;
      case '/' => emitted := ['/']; i := i + 1;
      case 'b' => emitted := ['\U{8}']; i := i + 1;
      case 'f' => emitted := ['\U{c}']; i := i + 1;
      case 'n' => emitted := ['\n']; i := i + 1;
      case 'r' => emitted := ['\r']; i := i + 1;
      case 't' => emitted := ['\t']; i := i + 1;
      case 'u' =>
        emitted := [];
        if i + 5 < end {
          emitted := ['\\', 'u'];
          for j := 0 to 4
            invariant emitted == t[i..i + 2 + j]
          {
            emitted := emitted + [t[i + 2 + j]];
          }
          i := i + 5;
        }
      case _ => emitted := [t[i + 1]]; i := i + 1;
    } else {
      emitted := [t[i]];
    }
  }
}
