/** Serving from the cache (proxy/handler.cpp:217-256): the text a hit writes, and what the parser of
    proxy/response.cpp reads back from it. */
module RoundTrip {
  import opened CacheEntries
  import opened Text
  import opened Response
  import opened Relay
  import opened Freshness
  import CacheSpec

  /** The header map is emitted in some order of its keys, each once. */
  ghost predicate IsOrder(order: seq<string>, headers: map<string, string>) {
    CacheSpec.NoDup(order) && forall k :: k in order <==> k in headers
  }

  function HeaderText(order: seq<string>, headers: map<string, string>): string
    requires forall k :: k in order ==> k in headers
  {
    if order == [] then ""
    else HeaderText(order[..|order| - 1], headers)
         + order[|order| - 1] + ": " + headers[order[|order| - 1]] + CRLF
  }

  /** The header block a hit sends, the empty line included. */
  function EmitHeaders(e: CacheEntry, order: seq<string>): string
    requires forall k :: k in order ==> k in e.headers
  {
    e.responseLine + CRLF + HeaderText(order, e.headers) + CRLF
  }

  // ---------------------------------------------------------------- the block without its end

  /** One emitted line without its end. */
  function HeaderLineText(key: string, value: string): string { key + ": " + value }

  /** The same header lines, joined by line ends rather than each followed by one. */
  function Joined(order: seq<string>, headers: map<string, string>): string
    requires order != [] && forall k :: k in order ==> k in headers
  {
    HeaderLineText(order[0], headers[order[0]])
    + if |order| == 1 then "" else CRLF + Joined(order[1..], headers)
  }

  function Block(e: CacheEntry, order: seq<string>): string
    requires forall k :: k in order ==> k in e.headers
  {
    if order == [] then e.responseLine else e.responseLine + CRLF + Joined(order, e.headers)
  }

  lemma {:induction false} JoinedLast(order: seq<string>, headers: map<string, string>)
    requires |order| > 1 && forall k :: k in order ==> k in headers
    ensures var last := order[|order| - 1];
            Joined(order, headers)
            == Joined(order[..|order| - 1], headers) + CRLF + HeaderLineText(last, headers[last])
  {
    var front, last := order[..|order| - 1], order[|order| - 1];
    if |order| > 2 {
      JoinedLast(order[1..], headers);
      assert order[1..][..|order| - 2] == front[1..];
      var first := HeaderLineText(order[0], headers[order[0]]);
      assert first + (CRLF + (Joined(front[1..], headers) + CRLF + HeaderLineText(last, headers[last])))
             == (first + (CRLF + Joined(front[1..], headers))) + CRLF + HeaderLineText(last, headers[last]);
    } else {
      assert front[0] == order[0] && order[1..] == [last];
    }
  }

  lemma {:induction false} JoinedIsHeaderText(order: seq<string>, headers: map<string, string>)
    requires order != [] && forall k :: k in order ==> k in headers
    ensures HeaderText(order, headers) == Joined(order, headers) + CRLF
  {
    var front, last := order[..|order| - 1], order[|order| - 1];
    if |order| > 1 {
      JoinedIsHeaderText(front, headers);
      JoinedLast(order, headers);
    } else {
      assert HeaderText(front, headers) == "";
    }
  }

  lemma EmittedBlock(e: CacheEntry, order: seq<string>)
    requires forall k :: k in order ==> k in e.headers
    ensures EmitHeaders(e, order) == Block(e, order) + HEADER_END
  {
    if order != [] {
      JoinedIsHeaderText(order, e.headers);
    }
  }

  // ---------------------------------------------------------------- the first header end

  /** No line of the text is empty or starts with a carriage return, except possibly the first. */
  ghost predicate NoEmptyLine(s: string) {
    forall i: nat :: At(s, CRLF, i) ==> i + 2 < |s| && s[i + 2] != '\r'
  }

  lemma CrlfAt(s: string, i: nat)
    ensures At(s, CRLF, i) <==> i + 1 < |s| && s[i] == '\r' && s[i + 1] == '\n'
  {
    if i + 2 <= |s| { assert s[i..i + 2] == [s[i], s[i + 1]]; }
  }

  lemma HeaderEndAt(s: string, i: nat)
    ensures At(s, HEADER_END, i) <==> At(s, CRLF, i) && At(s, CRLF, i + 2)
  {
    CrlfAt(s, i);
    CrlfAt(s, i + 2);
    if i + 4 <= |s| { assert s[i..i + 4] == [s[i], s[i + 1], s[i + 2], s[i + 3]]; }
  }

  lemma JoinNoEmptyLine(a: string, b: string)
    requires forall i: nat :: !At(a, CRLF, i)
    requires NoEmptyLine(b) && b != "" && b[0] != '\r' && b[0] != '\n'
    ensures NoEmptyLine(a + CRLF + b)
  {
    var s := a + CRLF + b;
    assert s[|a|] == '\r' && s[|a| + 1] == '\n' && s[|a| + 2] == b[0];
    forall i: nat | At(s, CRLF, i) ensures i + 2 < |s| && s[i + 2] != '\r' {
      CrlfAt(s, i);
      CrlfAt(a, i);
      if i >= |a| + 2 {
        CrlfAt(b, i - |a| - 2);
        assert b[i - |a| - 2] == s[i] && b[i - |a| - 1] == s[i + 1];
      }
    }
  }

  lemma FirstHeaderEnd(block: string, body: string)
    requires NoEmptyLine(block)
    ensures Find(block + HEADER_END + body, HEADER_END) == Some(|block|)
  {
    var s := block + HEADER_END + body;
    assert s[|block|..|block| + 4] == HEADER_END;
    forall i: nat | i < |block| ensures !At(s, HEADER_END, i) {
      HeaderEndAt(s, i);
      CrlfAt(s, i);
      CrlfAt(s, i + 2);
      CrlfAt(block, i);
    }
    FindIs(s, HEADER_END, |block|);
  }

  // ---------------------------------------------------------------- storable entries

  predicate OneLine(s: string) { '\n' !in s }

  /** The numbers in a header value parse, whatever ages were seen before. */
  predicate NumbersParse(key: string, value: string) {
    && (key == "Content-Length" ==> Stoi(value).Some?)
    && (key == "Cache-Control" ==>
          WithAge(-1, value, "s-maxage=").Some? && WithAge(-1, value, "max-age=").Some?)
  }

  /** What `forwardRequest` guarantees of the entries it stores, as far as serving them goes. */
  ghost predicate Servable(e: CacheEntry) {
    && (forall i: nat :: !At(e.responseLine, CRLF, i))
    && (forall k :: k in e.headers ==>
          k in STORED_HEADERS && OneLine(e.headers[k]) && NumbersParse(k, e.headers[k]))
  }

  ghost predicate HeadersParse(f: Fields) {
    forall k :: k in f.headers ==> OneLine(f.headers[k]) && NumbersParse(k, f.headers[k])
  }

  /** A header that is accepted has a value whose numbers parse. */
  lemma HeaderParses(f: Fields, key: string, value: string, parseTime: DateParser)
    requires Header(f, key, value, parseTime).Some?
    ensures NumbersParse(key, value)
    ensures Header(f, key, value, parseTime).value.headers == f.headers[key := value]
  {
    HeaderSets(f, key, value, parseTime);
    hide Find, Contains, Stoi, Stol;
  }

  lemma HeadersParseAfter(f: Fields, line: string, parseTime: DateParser)
    requires HeadersParse(f) && OneLine(line) && HeaderLine(f, line, parseTime).Some?
    ensures HeadersParse(HeaderLine(f, line, parseTime).value)
  {
    var colon := Find(line, ": ");
    if colon.Some? {
      var key, value := line[..colon.value], line[colon.value + 2..];
      HeaderParses(f, key, value, parseTime);
      assert OneLine(value);
      hide Header, NumbersParse;
    }
  }

  lemma {:induction false} HeadersParseThroughout(f: Fields, text: string, parseTime: DateParser)
    requires HeadersParse(f) && HeaderLines(f, text, parseTime).Some?
    ensures HeadersParse(HeaderLines(f, text, parseTime).value)
    decreases |text|
  {
    if text != "" {
      var (line, rest) := NextLine(text);
      if line != "" {
        HeadersParseAfter(f, line, parseTime);
        hide HeadersParse, HeaderLine;
        HeadersParseThroughout(HeaderLine(f, line, parseTime).value, rest, parseTime);
      }
    }
  }

  lemma ResponseLineIsLine(head: string)
    ensures forall i: nat :: !At(ResponseLine(head), CRLF, i)
  {
    var line := ResponseLine(head);
    forall i: nat ensures !At(line, CRLF, i) {
      CrlfAt(line, i);
      CrlfAt(head, i);
    }
  }

  lemma ParsedHeadersParse(head: string, clock: Clock, f: Fields)
    requires ParseResponse(head, clock.parseTime, clock.parsed) == Some(f)
    ensures HeadersParse(f)
  {
    var text := AfterStatusLine(head[..Find(head, HEADER_END).value]);
    hide *;
    var f0 := ParsedFrom(head, clock, f);
    assert HeadersParse(DEFAULTS) by { EmptyHeadersParse(); }
    HeadersParseThroughout(DEFAULTS, text, clock.parseTime);
    SameHeadersParse(f0, f);
  }

  lemma EmptyHeadersParse()
    ensures HeadersParse(DEFAULTS)
  {}

  lemma SameHeadersParse(f: Fields, g: Fields)
    requires HeadersParse(f) && f.headers == g.headers
    ensures HeadersParse(g)
  {}

  /** Every entry that `forwardRequest` stores can be served and read back. */
  lemma StoredIsServable(head: string, data: string, clock: Clock, e: CacheEntry)
    requires StoreSpec(head, data, clock) == Some(e)
    ensures Servable(e)
  {
    var f := ParseResponse(head, clock.parseTime, clock.parsed).value;
    assert e == EntryOf(f, ResponseLine(head), data, clock.created);
    hide ParseResponse, ResponseLine, NumbersParse, CopyHeaders, FromTimeT;
    ParsedHeadersParse(head, clock, f);
    CopiedHeaders(STORED_HEADERS, f);
    ResponseLineIsLine(head);
  }

  // ---------------------------------------------------------------- numbers before a carriage return

  lemma {:induction false} SpacesBeforeCR(s: string)
    ensures SkipSpaces(s + "\r") == if SkipSpaces(s) == "" then "" else SkipSpaces(s) + "\r"
  {
    if s == "" {
      assert SkipSpaces("\r") == SkipSpaces("");
    } else if IsSpace(s[0]) {
      assert (s + "\r")[1..] == s[1..] + "\r";
      SpacesBeforeCR(s[1..]);
    }
  }

  lemma {:induction false} DigitsBeforeCR(s: string)
    ensures LeadingDigits(s + "\r") == LeadingDigits(s)
  {
    if s != "" && IsDigit(s[0]) {
      assert (s + "\r")[1..] == s[1..] + "\r";
      DigitsBeforeCR(s[1..]);
    }
  }

  /** A carriage return behind a number changes nothing for the number parsers. */
  lemma NumberBeforeCR(s: string, lo: int, hi: int)
    ensures ParseInt(s + "\r", lo, hi) == ParseInt(s, lo, hi)
  {
    var t := SkipSpaces(s);
    SpacesBeforeCR(s);
    if t != "" {
      DigitsBeforeCR(t);
      assert (t + "\r")[1..] == t[1..] + "\r";
      DigitsBeforeCR(t[1..]);
    }
  }

  lemma FindBeforeCR(s: string, pattern: string)
    requires pattern != "" && pattern[|pattern| - 1] != '\r'
    ensures Find(s + "\r", pattern) == Find(s, pattern)
  {
    var longer := s + "\r";
    match Find(s, pattern)
    case Some(pos) => FindInLonger(s, "\r", pattern);
    case None =>
      forall i: nat ensures !At(longer, pattern, i) {
        assert !At(s, pattern, i);
        if i + |pattern| <= |s| {
          assert longer[i..i + |pattern|] == s[i..i + |pattern|];
        } else if i + |pattern| == |longer| {
          assert longer[i..i + |pattern|][|pattern| - 1] == '\r';
        }
      }
  }

  lemma AgeBeforeCR(age: int64, value: string, directive: string)
    requires directive != "" && directive[|directive| - 1] != '\r'
    ensures WithAge(age, value + "\r", directive) == WithAge(age, value, directive)
  {
    FindBeforeCR(value, directive);
    var pos := Find(value, directive);
    if pos.Some? {
      var start := pos.value + |directive|;
      assert (value + "\r")[start..] == value[start..] + "\r";
      NumberBeforeCR(value[start..], -TWO_TO_THE_63, TWO_TO_THE_63);
    }
  }

  lemma NumbersBeforeCR(key: string, value: string)
    ensures NumbersParse(key, value + "\r") <==> NumbersParse(key, value)
  {
    if key == "Content-Length" {
      NumberBeforeCR(value, -TWO_TO_THE_31, TWO_TO_THE_31);
    }
    if key == "Cache-Control" {
      AgeBeforeCR(-1, value, "s-maxage=");
      AgeBeforeCR(-1, value, "max-age=");
    }
  }

  // ---------------------------------------------------------------- reading the lines back

  /** Equal up to one carriage return at the end of the first. */
  predicate SameButCR(read: string, emitted: string) { read == emitted || read == emitted + "\r" }

  lemma NameEndsAtColon(key: string, value: string)
    requires ':' !in key
    ensures var line := HeaderLineText(key, value);
            Find(line, ": ") == Some(|key|) && line[..|key|] == key && line[|key| + 2..] == value
  {
    var line := HeaderLineText(key, value);
    assert line[|key|..|key| + 2] == ": ";
    forall i: nat | i < |key| ensures !At(line, ": ", i) {
      assert line[i] == key[i] && key[i] in key;
      assert line[i..i + 2] == [line[i], line[i + 1]];
    }
    FindIs(line, ": ", |key|);
  }

  lemma HeaderAccepts(f: Fields, key: string, value: string, parseTime: DateParser)
    requires NumbersParse(key, value)
    ensures var r := Header(f, key, value, parseTime);
            r.Some? && r.value.headers == f.headers[key := value]
  {
    AnyAgeParses(f, value);
    hide WithAge, Contains, Stoi;
  }

  /** One emitted line read back: it throws nothing and sets exactly its own header. */
  lemma LineReadBack(f: Fields, key: string, value: string, parseTime: DateParser)
    requires ':' !in key && NumbersParse(key, value)
    ensures var r := HeaderLine(f, HeaderLineText(key, value), parseTime);
            r.Some? && r.value.headers == f.headers[key := value]
  {
    NameEndsAtColon(key, value);
    HeaderAccepts(f, key, value, parseTime);
    hide Header, HeaderLineText, NumbersParse;
  }

  lemma AnyAgeParses(f: Fields, value: string)
    ensures WithAge(f.control.sMaxAge, value, "s-maxage=").Some? <==> WithAge(-1, value, "s-maxage=").Some?
    ensures WithAge(f.control.maxAge, value, "max-age=").Some? <==> WithAge(-1, value, "max-age=").Some?
  {}

  /** `getline` on text with a line feed after a first part without one. */
  lemma FirstLine(line: string, rest: string)
    requires OneLine(line)
    ensures NextLine(line + "\n" + rest) == (line, rest)
    ensures line != "" ==> NextLine(line) == (line, "")
  {
    var s := line + "\n" + rest;
    SecondLine(line, rest);
    assert s[..|line|] == line;
    FirstLineFeed(line);
    forall i: nat ensures !At(line, "\n", i) { LineFeedAt(line, i); }
  }

  lemma StoredNamesArePlain(key: string)
    requires key in STORED_HEADERS
    ensures ':' !in key && OneLine(key) && key != "" && key[0] != '\r' && key[0] != '\n'
  {}

  /** `f'` is `f` with the listed headers set, each to its value up to a carriage return. */
  ghost predicate ReadBack(f: Fields, f': Fields, order: seq<string>, headers: map<string, string>) {
    && (forall k :: k in f'.headers <==> k in f.headers || k in order)
    && (forall k :: k in order ==> k in f'.headers && k in headers && SameButCR(f'.headers[k], headers[k]))
    && (forall k :: k in f.headers && k !in order ==> k in f'.headers && f'.headers[k] == f.headers[k])
  }

  ghost predicate Emittable(order: seq<string>, headers: map<string, string>) {
    && CacheSpec.NoDup(order)
    && forall k :: k in order ==>
         k in headers && k in STORED_HEADERS && OneLine(headers[k]) && NumbersParse(k, headers[k])
  }

  lemma ReadBackCons(
    f: Fields, f1: Fields, f2: Fields, order: seq<string>, headers: map<string, string>, value: string)
    requires order != [] && CacheSpec.NoDup(order) && order[0] in headers
    requires SameButCR(value, headers[order[0]]) && f1.headers == f.headers[order[0] := value]
    requires ReadBack(f1, f2, order[1..], headers)
    ensures ReadBack(f, f2, order, headers)
  {
    assert order == [order[0]] + order[1..];
    assert order[0] !in order[1..];
  }

  lemma EmittableTail(order: seq<string>, headers: map<string, string>)
    requires Emittable(order, headers) && order != []
    ensures Emittable(order[1..], headers) && order[0] in headers
    ensures var k := order[0];
            k in STORED_HEADERS && OneLine(headers[k]) && NumbersParse(k, headers[k])
  {
    assert order[0] in order;
  }

  /** The value that is read back from an emitted line: only the last line lacks its end. */
  function ValueRead(order: seq<string>, headers: map<string, string>): string
    requires order != [] && order[0] in headers
  {
    headers[order[0]] + if |order| == 1 then "" else "\r"
  }

  lemma JoinedFirstLine(order: seq<string>, headers: map<string, string>)
    requires order != [] && Emittable(order, headers)
    requires forall k :: k in order ==> k in headers
    ensures Joined(order, headers) != ""
    ensures HeaderLineText(order[0], ValueRead(order, headers)) != ""
    ensures NextLine(Joined(order, headers)) ==
            (HeaderLineText(order[0], ValueRead(order, headers)),
             if |order| == 1 then "" else Joined(order[1..], headers))
  {
    EmittableTail(order, headers);
    StoredNamesArePlain(order[0]);
    var key, value := order[0], headers[order[0]];
    OneHeaderLine(key, value);
    if |order| > 1 {
      var rest := Joined(order[1..], headers);
      assert Joined(order, headers) == HeaderLineText(key, value) + (CRLF + rest);
      hide *;
      SplitLineEnd(key, value, rest);
    } else {
      assert Joined(order, headers) == HeaderLineText(key, value) + "" == HeaderLineText(key, value);
      assert ValueRead(order, headers) == value;
      hide *;
      FirstLine(HeaderLineText(key, value), "");
    }
  }

  /** A line end belongs half to the value read back and half to the line separator. */
  lemma SplitLineEnd(key: string, value: string, rest: string)
    requires OneLine(HeaderLineText(key, value + "\r"))
    ensures var text := HeaderLineText(key, value) + (CRLF + rest);
            text != "" && NextLine(text) == (HeaderLineText(key, value + "\r"), rest)
  {
    assert HeaderLineText(key, value) + (CRLF + rest)
           == HeaderLineText(key, value + "\r") + "\n" + rest;
    hide *;
    FirstLine(HeaderLineText(key, value + "\r"), rest);
  }

  lemma OneHeaderLine(key: string, value: string)
    requires OneLine(key) && OneLine(value)
    ensures OneLine(HeaderLineText(key, value)) && OneLine(HeaderLineText(key, value + "\r"))
    ensures HeaderLineText(key, value) != "" && HeaderLineText(key, value + "\r") != ""
  {}

  lemma ValueReadBack(f: Fields, order: seq<string>, headers: map<string, string>, parseTime: DateParser)
    requires order != [] && Emittable(order, headers)
    requires forall k :: k in order ==> k in headers
    ensures var value := ValueRead(order, headers);
            var r := HeaderLine(f, HeaderLineText(order[0], value), parseTime);
            && r.Some? && r.value.headers == f.headers[order[0] := value]
            && SameButCR(value, headers[order[0]])
  {
    EmittableTail(order, headers);
    var key := order[0];
    StoredNamesArePlain(key);
    hide Emittable, NumbersParse, HeaderLine, HeaderLineText;
    assert headers[key] + "" == headers[key];
    NumbersBeforeCR(key, headers[key]);
    LineReadBack(f, key, ValueRead(order, headers), parseTime);
  }

  /** The joined header lines read back: nothing is thrown, every header is set, to its value up to a
      carriage return, and nothing else changes. */
  lemma {:induction false} JoinedReadBack(
    f: Fields, order: seq<string>, headers: map<string, string>, parseTime: DateParser)
    requires order != [] && Emittable(order, headers)
    requires forall k :: k in order ==> k in headers
    ensures var r := HeaderLines(f, Joined(order, headers), parseTime);
            r.Some? && ReadBack(f, r.value, order, headers)
    decreases |order|
  {
    EmittableTail(order, headers);
    assert CacheSpec.NoDup(order);
    JoinedFirstLine(order, headers);
    ValueReadBack(f, order, headers, parseTime);
    hide Emittable, ReadBack, NumbersParse, NextLine, HeaderLine, HeaderLineText, SameButCR, Joined,
      CacheSpec.NoDup;
    var value := ValueRead(order, headers);
    var f' := HeaderLine(f, HeaderLineText(order[0], value), parseTime).value;
    if |order| == 1 {
      NothingRead(f', headers);
      assert order[1..] == [];
      assert HeaderLines(f', "", parseTime) == Some(f');
      ReadBackCons(f, f', f', order, headers, value);
    } else {
      JoinedReadBack(f', order[1..], headers, parseTime);
      var r := HeaderLines(f', Joined(order[1..], headers), parseTime);
      ReadBackCons(f, f', r.value, order, headers, value);
    }
  }

  lemma NothingRead(f: Fields, headers: map<string, string>)
    ensures ReadBack(f, f, [], headers)
  {}

  // ---------------------------------------------------------------- the round trip

  lemma {:induction false} JoinedNoEmptyLine(order: seq<string>, headers: map<string, string>)
    requires order != [] && Emittable(order, headers)
    requires forall k :: k in order ==> k in headers
    ensures var text := Joined(order, headers);
            NoEmptyLine(text) && text != "" && text[0] != '\r' && text[0] != '\n'
    decreases |order|
  {
    EmittableTail(order, headers);
    var key, value := order[0], headers[order[0]];
    StoredNamesArePlain(key);
    OneHeaderLine(key, value);
    var line := HeaderLineText(key, value);
    assert line[0] == key[0];
    forall i: nat ensures !At(line, CRLF, i) {
      CrlfAt(line, i);
    }
    if |order| > 1 {
      JoinedNoEmptyLine(order[1..], headers);
      var rest := Joined(order[1..], headers);
      assert Joined(order, headers) == line + CRLF + rest;
      hide NoEmptyLine, Emittable, Joined;
      JoinNoEmptyLine(line, rest);
    } else {
      assert Joined(order, headers) == line;
    }
  }

  lemma EntryEmittable(e: CacheEntry, order: seq<string>)
    requires Servable(e) && IsOrder(order, e.headers)
    ensures Emittable(order, e.headers) && forall k :: k in order ==> k in e.headers
  {
    hide NumbersParse;
  }

  /** The first header end in what a hit sends is the one it means, and the body follows it. */
  lemma BodyReadBack(e: CacheEntry, order: seq<string>)
    requires Servable(e) && IsOrder(order, e.headers)
    ensures forall k :: k in order ==> k in e.headers
    ensures var wire := EmitHeaders(e, order) + e.data;
            && Find(wire, HEADER_END) == Some(|Block(e, order)|)
            && wire[..|Block(e, order)|] == Block(e, order)
            && wire[|Block(e, order)| + 4..] == e.data
  {
    EntryEmittable(e, order);
    EmittedBlock(e, order);
    var block := Block(e, order);
    assert NoEmptyLine(block) by {
      if order != [] {
        JoinedNoEmptyLine(order, e.headers);
        JoinNoEmptyLine(e.responseLine, Joined(order, e.headers));
      }
    }
    hide Block, NoEmptyLine, Servable, IsOrder, Emittable, EmitHeaders;
    FirstHeaderEnd(block, e.data);
  }

  lemma BlockLines(e: CacheEntry, order: seq<string>)
    requires OneLine(e.responseLine) && forall k :: k in order ==> k in e.headers
    ensures AfterStatusLine(Block(e, order)) == if order == [] then "" else Joined(order, e.headers)
  {
    var line := e.responseLine;
    if order == [] {
      FirstLine(line, "");
    } else {
      var rest := Joined(order, e.headers);
      assert Block(e, order) == (line + "\r") + "\n" + rest;
      FirstLine(line + "\r", rest);
    }
  }

  // ---------------------------------------------------------------- the header map alone

  /** The header map after one line; None where a number does not parse. */
  function HeaderOf(h: map<string, string>, line: string): Option<map<string, string>> {
    match Find(line, ": ")
    case None => Some(h)
    case Some(colon) =>
      if NumbersParse(line[..colon], line[colon + 2..]) then Some(h[line[..colon] := line[colon + 2..]])
      else None
  }

  function HeadersOf(h: map<string, string>, text: string): Option<map<string, string>>
    decreases |text|
  {
    if text == "" then Some(h)
    else
      var (line, rest) := NextLine(text);
      if line == "" then Some(h)
      else
        match HeaderOf(h, line)
        case None => None
        case Some(h') => HeadersOf(h', rest)
  }

  lemma OneHeaderOnly(f: Fields, line: string, parseTime: DateParser)
    ensures HeaderOf(f.headers, line) ==
            match HeaderLine(f, line, parseTime) case None => None case Some(g) => Some(g.headers)
  {
    var colon := Find(line, ": ");
    if colon.Some? {
      var key, value := line[..colon.value], line[colon.value + 2..];
      hide NumbersParse, Header, Find;
      if NumbersParse(key, value) {
        HeaderAccepts(f, key, value, parseTime);
      } else if Header(f, key, value, parseTime).Some? {
        HeaderParses(f, key, value, parseTime);
      }
    }
  }

  /** Whether the parser accepts a text, and the header map it makes of it, depend on nothing but the
      text and the map before. */
  lemma {:induction false} HeadersOnly(f: Fields, text: string, parseTime: DateParser)
    ensures HeadersOf(f.headers, text) ==
            match HeaderLines(f, text, parseTime) case None => None case Some(g) => Some(g.headers)
    decreases |text|
  {
    if text != "" {
      var (line, rest) := NextLine(text);
      if line != "" {
        OneHeaderOnly(f, line, parseTime);
        hide HeaderOf, HeaderLine, NextLine;
        var f' := HeaderLine(f, line, parseTime);
        if f'.Some? {
          HeadersOnly(f'.value, rest, parseTime);
        }
      }
    }
  }

  lemma OneLineBeforeCR(h: map<string, string>, line: string)
    ensures HeaderOf(h, line + "\r").Some? <==> HeaderOf(h, line).Some?
  {
    FindBeforeCR(line, ": ");
    var colon := Find(line, ": ");
    if colon.Some? {
      var key, value := line[..colon.value], line[colon.value + 2..];
      assert (line + "\r")[..colon.value] == key && (line + "\r")[colon.value + 2..] == value + "\r";
      NumbersBeforeCR(key, value);
      hide NumbersParse;
    }
  }

  /** A carriage return behind a text does not decide whether it is accepted, nor whether an empty line
      ends it early; in that case the parser does not even see it. */
  lemma {:induction false} TextBeforeCR(h: map<string, string>, text: string)
    ensures HeadersOf(h, text + "\r").Some? <==> HeadersOf(h, text).Some?
    ensures LineNames(text + "\r").1 == LineNames(text).1
    ensures LineNames(text).1 ==> HeadersOf(h, text + "\r") == HeadersOf(h, text)
    decreases |text|
  {
    hide NameOf;
    NoNames();
    assert HeadersOf(h, "") == Some(h);
    if '\n' in text {
      var (line, rest) := NextLine(text);
      NextHasFeed(text);
      assert text + "\r" == line + "\n" + (rest + "\r");
      FirstLine(line, rest + "\r");
      hide NextLine, HeaderOf;
      var h' := HeaderOf(h, line);
      TextBeforeCR(if h'.Some? then h'.value else h, rest);
    } else {
      FirstLine(text + "\r", "");
      if text != "" {
        FirstLine(text, "");
      }
      OneLineBeforeCR(h, text);
      hide NextLine, HeaderOf;
      OnlyLine(h, text + "\r");
      if text != "" {
        OnlyLine(h, text);
      } else {
        assert HeaderOf(h, "").Some?;
      }
    }
  }

  lemma NextHasFeed(text: string)
    requires '\n' in text
    ensures var (line, rest) := NextLine(text); text == line + "\n" + rest
  {}

  lemma OnlyLine(h: map<string, string>, line: string)
    requires line != "" && NextLine(line) == (line, "")
    ensures HeadersOf(h, line).Some? <==> HeaderOf(h, line).Some?
    ensures !LineNames(line).1
  {
    hide NextLine, HeaderOf, NameOf;
    NoNames();
  }

  /** Two texts with a line end between them: the second is read on top of the first, unless an empty
      line ends the first early. */
  lemma {:induction false} HeadersOfTwo(h: map<string, string>, a: string, b: string)
    requires a != "" && a[|a| - 1] != '\n'
    ensures HeadersOf(h, a + "\n" + b) ==
            if LineNames(a).1 then HeadersOf(h, a)
            else match HeadersOf(h, a) case None => None case Some(h') => HeadersOf(h', b)
    decreases |a|
  {
    var (line, rest) := NextLine(a);
    NoNames();
    assert HeadersOf(h, "") == Some(h);
    if rest == "" {
      assert a == line;
      FirstLine(line, b);
      hide NextLine, HeaderOf, NameOf;
    } else {
      assert a == line + "\n" + rest && rest[|rest| - 1] == a[|a| - 1];
      assert a + "\n" + b == line + "\n" + (rest + "\n" + b);
      FirstLine(line, rest);
      FirstLine(line, rest + "\n" + b);
      hide NextLine, HeaderOf, NameOf;
      if line != "" && HeaderOf(h, line).Some? {
        HeadersOfTwo(HeaderOf(h, line).value, rest, b);
      }
    }
  }

  // ---------------------------------------------------------------- the round trip of stored entries

  /** The header map read from the response that an entry was stored from; the entry's is a part of it. */
  lemma ParsedHeadersOf(head: string, data: string, stored: Clock, e: CacheEntry) returns (h: map<string, string>)
    requires StoreSpec(head, data, stored) == Some(e)
    ensures Contains(head, HEADER_END) && e.responseLine == ResponseLine(head)
    ensures HeadersOf(map[], LinesOf(head)) == Some(h)
    ensures forall k :: k in e.headers ==> k in h && e.headers[k] == h[k]
  {
    var f := ParseResponse(head, stored.parseTime, stored.parsed).value;
    var f0 := ParsedFrom(head, stored, f);
    HeadersOnly(DEFAULTS, LinesOf(head), stored.parseTime);
    h := f0.headers;
    CopiedHeaders(STORED_HEADERS, f);
    hide HeaderLines, CopyHeaders, HeadersOf, ResponseLine;
  }

  /** The text before the header end: the status line, and what follows its end if there is more. */
  lemma StatusLineFirst(head: string) returns (more: Option<string>)
    requires Contains(head, HEADER_END)
    ensures head[..Find(head, HEADER_END).value]
            == if more.None? then ResponseLine(head) else ResponseLine(head) + CRLF + more.value
  {
    var end := Find(head, HEADER_END).value;
    HeaderEndAt(head, end);
    assert Find(head, CRLF).Some?;
    var cut := Find(head, CRLF).value;
    assert cut <= end;
    CrlfAt(head, cut);
    CrlfAt(head, end);
    if cut == end {
      more := None;
    } else {
      assert cut + 2 <= end;
      more := Some(head[cut + 2..end]);
      assert head[cut..cut + 2] == CRLF;
      assert head[..end] == head[..cut] + head[cut..cut + 2] + head[cut + 2..end];
    }
  }

  /** The header lines that begin with `hidden`, and go on behind a line end if there is more. */
  function Behind(hidden: string, more: Option<string>): string {
    if more.None? then hidden else (hidden + "\r") + "\n" + more.value
  }

  /** What a hit adds behind the status line. */
  function Emitted(order: seq<string>, headers: map<string, string>): Option<string>
    requires forall k :: k in order ==> k in headers
  {
    if order == [] then None else Some(Joined(order, headers))
  }

  /** What `getline` leaves of a text whose first line ends in a bare line feed. */
  lemma AfterFirstFeed(line: string, more: Option<string>)
    requires Find(line, "\n").Some?
    ensures var hidden := line[Find(line, "\n").value + 1..];
            AfterStatusLine(if more.None? then line else line + CRLF + more.value)
            == Behind(hidden, more)
  {
    BeforeLineFeed(line);
    var first, hidden := line[..Find(line, "\n").value], line[Find(line, "\n").value + 1..];
    if more.None? {
      FirstLine(first, hidden);
    } else {
      var rest := (hidden + "\r") + "\n" + more.value;
      assert line + CRLF + more.value == first + "\n" + rest;
      FirstLine(first, rest);
    }
  }

  /** Where the status line has a line feed, the header lines of the response begin with what the
      status line hides behind it, and go on behind the status line's end if there is more. */
  lemma HiddenInHead(head: string) returns (more: Option<string>)
    requires Contains(head, HEADER_END) && Find(ResponseLine(head), "\n").Some?
    ensures var line := ResponseLine(head);
            var hidden := line[Find(line, "\n").value + 1..];
            LinesOf(head) == Behind(hidden, more)
  {
    hide ResponseLine, AfterStatusLine;
    more := StatusLineFirst(head);
    AfterFirstFeed(ResponseLine(head), more);
  }

  /** What the parser makes of a text that goes on behind a line end, or does not: it accepts the part
      before, and if an empty line ends that part early it has read nothing else. */
  lemma AcceptedBefore(text: string, more: Option<string>, h: map<string, string>)
    requires HeadersOf(map[], Behind(text, more)) == Some(h)
    ensures HeadersOf(map[], text).Some?
    ensures LineNames(text).1 ==> HeadersOf(map[], text) == Some(h)
  {
    hide HeadersOf, LineNames;
    TextBeforeCR(map[], text);
    if more.Some? {
      HeadersOfTwo(map[], text + "\r", more.value);
    }
  }

  /** The headers of an emitted block, read on top of what the status line hides. */
  lemma EmittedOnTop(h: map<string, string>, order: seq<string>, headers: map<string, string>)
    requires order != [] && Emittable(order, headers)
    requires forall k :: k in order ==> k in headers
    ensures var r := HeadersOf(h, Joined(order, headers));
            r.Some? && forall k :: k in order ==> k in r.value && SameButCR(r.value[k], headers[k])
  {
    var f, parseTime: DateParser := DEFAULTS.(headers := h), (s: string) => 0;
    JoinedReadBack(f, order, headers, parseTime);
    HeadersOnly(f, Joined(order, headers), parseTime);
    hide HeaderLines, HeadersOf, Joined, Emittable, SameButCR;
  }

  /** The emitted headers behind hidden lines that a parser has accepted before. */
  lemma OnTopOfHidden(
    hidden: string, order: seq<string>, headers: map<string, string>, h: map<string, string>)
    requires HeadersOf(map[], hidden).Some?
    requires LineNames(hidden).1 ==> HeadersOf(map[], hidden) == Some(h)
    requires forall k :: k in headers ==> k in h && headers[k] == h[k]
    requires Emittable(order, headers) && IsOrder(order, headers)
    requires forall k :: k in order ==> k in headers
    ensures var r := HeadersOf(map[], Behind(hidden, Emitted(order, headers)));
            r.Some? && forall k :: k in headers ==> k in r.value && SameButCR(r.value[k], headers[k])
  {
    hide HeadersOf, LineNames, Emittable, Joined;
    TextBeforeCR(map[], hidden);
    if order == [] {
      assert forall k :: k !in headers;
    } else {
      HeadersOfTwo(map[], hidden + "\r", Joined(order, headers));
      if !LineNames(hidden).1 {
        EmittedOnTop(HeadersOf(map[], hidden + "\r").value, order, headers);
      }
    }
  }

  /** The text that is read back for such a status line. */
  lemma HiddenBlock(e: CacheEntry, order: seq<string>)
    requires Find(e.responseLine, "\n").Some? && forall k :: k in order ==> k in e.headers
    ensures var hidden := e.responseLine[Find(e.responseLine, "\n").value + 1..];
            AfterStatusLine(Block(e, order)) == Behind(hidden, Emitted(order, e.headers))
  {
    AfterFirstFeed(e.responseLine, Emitted(order, e.headers));
    hide Joined, AfterStatusLine, Behind;
  }

  /** A status line with a line feed: the lines it hides were accepted when the response was parsed, so
      they are accepted again; and if they end in an empty line, that cuts off the same headers. */
  lemma HiddenReadBack(head: string, data: string, stored: Clock, e: CacheEntry, order: seq<string>)
    requires StoreSpec(head, data, stored) == Some(e) && IsOrder(order, e.headers)
    requires Find(e.responseLine, "\n").Some?
    ensures forall k :: k in order ==> k in e.headers
    ensures var r := HeadersOf(map[], AfterStatusLine(Block(e, order)));
            r.Some? && forall k :: k in e.headers ==> k in r.value && SameButCR(r.value[k], e.headers[k])
  {
    hide *;
    var h := ParsedHeadersOf(head, data, stored, e);
    var more := HiddenInHead(head);
    BeforeLineFeed(e.responseLine);
    var hidden := e.responseLine[Find(e.responseLine, "\n").value + 1..];
    AcceptedBefore(hidden, more, h);
    StoredIsServable(head, data, stored, e);
    EntryEmittable(e, order);
    HiddenBlock(e, order);
    OnTopOfHidden(hidden, order, e.headers, h);
  }

  /** A status line of one line: the block has the emitted header lines and no others. */
  lemma PlainReadBack(e: CacheEntry, order: seq<string>)
    requires Servable(e) && IsOrder(order, e.headers) && OneLine(e.responseLine)
    ensures forall k :: k in order ==> k in e.headers
    ensures var r := HeadersOf(map[], AfterStatusLine(Block(e, order)));
            r.Some? && forall k :: k in e.headers ==> k in r.value && SameButCR(r.value[k], e.headers[k])
  {
    EntryEmittable(e, order);
    BlockLines(e, order);
    if order == [] {
      assert HeadersOf(map[], "") == Some(map[]);
    } else {
      hide HeadersOf, Joined, Emittable, Servable, SameButCR, Block, AfterStatusLine;
      EmittedOnTop(map[], order, e.headers);
    }
  }

  /** Round trip, for every entry that `forwardRequest` stores and every order of emission.  What a hit
      sends parses; the body comes back exactly, and every header of the entry with its value up to a
      carriage return.  No other header comes back exactly if the status line is harmless. */
  lemma StoredRoundTrip(
    head: string, data: string, stored: Clock, e: CacheEntry, order: seq<string>, clock: Clock)
    requires StoreSpec(head, data, stored) == Some(e) && IsOrder(order, e.headers)
    ensures forall k :: k in order ==> k in e.headers
    ensures var wire := EmitHeaders(e, order) + e.data;
            var r := ParseResponse(wire, clock.parseTime, clock.parsed);
            && r.Some? && BodyOf(wire) == data && ResponseLine(wire) == ResponseLine(head)
            && (forall k :: k in e.headers ==> k in r.value.headers && SameButCR(r.value.headers[k], e.headers[k]))
            && (r.value.headers.Keys == e.headers.Keys <==> HarmlessLine(e))
  {
    StoredIsServable(head, data, stored, e);
    StoredData(head, data, stored, e);
    hide StoreSpec;
    StatusLineFirstSent(e, order);
    if Find(e.responseLine, "\n").None? {
      NoLineFeed(e.responseLine);
      PlainReadBack(e, order);
    } else {
      HiddenReadBack(head, data, stored, e, order);
    }
    BodyReadBack(e, order);
    BodyAfter(EmitHeaders(e, order) + e.data, |Block(e, order)|);
    HeadersOnly(DEFAULTS, AfterStatusLine(Block(e, order)), clock.parseTime);
    hide Servable, IsOrder, EmitHeaders, Block, HeadersOf, HeaderLines, AfterStatusLine, SameButCR, HarmlessLine,
      BodyOf, OneLine, ResponseLine;
    WireParse(e, order, clock);
    NamesReadBack(e, order, clock, ParseResponse(EmitHeaders(e, order) + e.data, clock.parseTime, clock.parsed).value);
  }

  /** The headers of an entry are those of the parsed response that are stored at all. */
  lemma CopiesParsed(head: string, data: string, clock: Clock, e: CacheEntry)
    requires StoreSpec(head, data, clock) == Some(e)
    ensures var f := ParseResponse(head, clock.parseTime, clock.parsed);
            && f.Some? && (forall k :: k in e.headers <==> k in STORED_HEADERS && GetHeader(f.value, k) != "")
            && (forall k :: k in e.headers ==> e.headers[k] == GetHeader(f.value, k))
  {
    var f := ParseResponse(head, clock.parseTime, clock.parsed).value;
    CopiedHeaders(STORED_HEADERS, f);
    hide ParseResponse, CopyHeaders, GetHeader, ResponseLine, FromTimeT;
  }

  /** The round trip against the response that the entry was stored from: what is read back are its
      stored headers, as the first parser saw them, up to a carriage return. */
  lemma HeadersAsParsed(
    head: string, data: string, stored: Clock, e: CacheEntry, order: seq<string>, clock: Clock)
    requires StoreSpec(head, data, stored) == Some(e) && IsOrder(order, e.headers)
    ensures forall k :: k in order ==> k in e.headers
    ensures var wire, f := EmitHeaders(e, order) + e.data, ParseResponse(head, stored.parseTime, stored.parsed);
            var r := ParseResponse(wire, clock.parseTime, clock.parsed);
            && r.Some? && f.Some? && BodyOf(wire) == data && ResponseLine(wire) == ResponseLine(head)
            && (forall k :: k in e.headers <==> k in STORED_HEADERS && GetHeader(f.value, k) != "")
            && (forall k :: k in e.headers ==>
                  k in r.value.headers && SameButCR(r.value.headers[k], GetHeader(f.value, k)))
  {
    hide *;
    StoredRoundTrip(head, data, stored, e, order, clock);
    CopiesParsed(head, data, stored, e);
  }

  /** The parser takes the header lines of what a hit sends from the block. */
  lemma WireParse(e: CacheEntry, order: seq<string>, clock: Clock)
    requires Servable(e) && IsOrder(order, e.headers)
    requires forall k :: k in order ==> k in e.headers
    ensures var r := ParseResponse(EmitHeaders(e, order) + e.data, clock.parseTime, clock.parsed);
            var lines := HeaderLines(DEFAULTS, AfterStatusLine(Block(e, order)), clock.parseTime);
            && (r.Some? <==> lines.Some?) && (r.Some? ==> r.value.headers == lines.value.headers)
  {
    BodyReadBack(e, order);
    hide Servable, IsOrder, EmitHeaders, Block, HeaderLines, AfterStatusLine;
  }

  /** What a hit sends begins with the status line, and its first line end comes right behind it. */
  lemma StatusLineFirstSent(e: CacheEntry, order: seq<string>)
    requires Servable(e) && IsOrder(order, e.headers)
    ensures forall k :: k in order ==> k in e.headers
    ensures ResponseLine(EmitHeaders(e, order) + e.data) == e.responseLine
  {
    var line, rest := e.responseLine, HeaderText(order, e.headers) + CRLF + e.data;
    var wire := EmitHeaders(e, order) + e.data;
    assert wire == line + CRLF + rest;
    assert wire[..|line|] == line && wire[|line|..|line| + 2] == CRLF;
    forall i: nat | i < |line| ensures !At(wire, CRLF, i) {
      CrlfAt(wire, i);
      CrlfAt(line, i);
    }
    hide EmitHeaders, HeaderText;
    FindIs(wire, CRLF, |line|);
  }

  lemma StoredData(head: string, data: string, clock: Clock, e: CacheEntry)
    requires StoreSpec(head, data, clock) == Some(e)
    ensures e.data == data && e.responseLine == ResponseLine(head)
  {
    hide ParseResponse;
  }

  lemma BodyAfter(wire: string, end: nat)
    requires Find(wire, HEADER_END) == Some(end)
    ensures end + 4 <= |wire| && BodyOf(wire) == wire[end + 4..]
  {}

  // ---------------------------------------------------------------- status lines with a line feed

  function NameOf(line: string): set<string> {
    match Find(line, ": ")
    case None => {}
    case Some(colon) => {line[..colon]}
  }

  /** The header names in a text, and whether an empty line ends it early. */
  function LineNames(text: string): (set<string>, bool)
    decreases |text|
  {
    if text == "" then ({}, false)
    else
      var (line, rest) := NextLine(text);
      if line == "" then ({}, true)
      else
        var (names, stopped) := LineNames(rest);
        (NameOf(line) + names, stopped)
  }

  lemma LineSets(f: Fields, line: string, parseTime: DateParser)
    requires HeaderLine(f, line, parseTime).Some?
    ensures HeaderLine(f, line, parseTime).value.headers.Keys == f.headers.Keys + NameOf(line)
  {
    hide CacheControl, Stoi;
  }

  lemma {:induction false} ParsedNames(f: Fields, text: string, parseTime: DateParser)
    requires HeaderLines(f, text, parseTime).Some?
    ensures HeaderLines(f, text, parseTime).value.headers.Keys == f.headers.Keys + LineNames(text).0
    decreases |text|
  {
    if text != "" {
      var (line, rest) := NextLine(text);
      if line != "" {
        LineSets(f, line, parseTime);
        hide HeaderLine, NameOf;
        ParsedNames(HeaderLine(f, line, parseTime).value, rest, parseTime);
      }
    }
  }

  lemma {:induction false} NamesOfTwo(a: string, b: string)
    requires a != "" && a[|a| - 1] != '\n'
    ensures LineNames(a + "\n" + b) ==
            if LineNames(a).1 then LineNames(a)
            else (LineNames(a).0 + LineNames(b).0, LineNames(b).1)
    decreases |a|
  {
    var (line, rest) := NextLine(a);
    hide NameOf, LineNames, NextLine;
    if rest == "" {
      assert a == line;
      OneName(line, b);
    } else {
      assert a == line + "\n" + rest && rest[|rest| - 1] == a[|a| - 1];
      assert a + "\n" + b == line + "\n" + (rest + "\n" + b);
      if line == "" {
        NoFirstLine(rest);
        NoFirstLine(rest + "\n" + b);
      } else {
        NamesOfTwo(rest, b);
        OneName(line, rest);
        OneName(line, rest + "\n" + b);
        assert NameOf(line) + (LineNames(rest).0 + LineNames(b).0)
               == (NameOf(line) + LineNames(rest).0) + LineNames(b).0;
      }
    }
  }

  lemma NoFirstLine(rest: string)
    ensures LineNames("" + "\n" + rest) == ({}, true)
  {
    FirstLine("", rest);
  }

  /** The names of a text are that of its first line and those of the rest. */
  lemma OneName(line: string, rest: string)
    requires line != "" && OneLine(line)
    ensures LineNames(line + "\n" + rest) == (NameOf(line) + LineNames(rest).0, LineNames(rest).1)
    ensures LineNames(line) == (NameOf(line), false)
  {
    FirstLine(line, rest);
    assert LineNames("") == ({}, false);
    assert NameOf(line) + {} == NameOf(line);
  }

  /** The first emitted line brings its key; the rest brings the others. */
  lemma JoinedFirstName(order: seq<string>, headers: map<string, string>)
    requires order != [] && Emittable(order, headers)
    requires forall k :: k in order ==> k in headers
    ensures var rest := if |order| == 1 then "" else Joined(order[1..], headers);
            LineNames(Joined(order, headers)) == ({order[0]} + LineNames(rest).0, LineNames(rest).1)
  {
    EmittableTail(order, headers);
    StoredNamesArePlain(order[0]);
    JoinedFirstLine(order, headers);
    var line := HeaderLineText(order[0], ValueRead(order, headers));
    NameEndsAtColon(order[0], ValueRead(order, headers));
    assert NameOf(line) == {order[0]};
    hide Emittable, Joined, NextLine, HeaderLineText, ValueRead, NameOf;
  }

  lemma ElementsCons<T>(s: seq<T>)
    requires s != []
    ensures (set k | k in s) == {s[0]} + set k | k in s[1..]
  {
    assert s == [s[0]] + s[1..];
  }

  lemma {:induction false} JoinedNames(order: seq<string>, headers: map<string, string>)
    requires order != [] && Emittable(order, headers)
    requires forall k :: k in order ==> k in headers
    ensures LineNames(Joined(order, headers)) == (set k | k in order, false)
    decreases |order|
  {
    EmittableTail(order, headers);
    JoinedFirstName(order, headers);
    ElementsCons(order);
    NoNames();
    hide *;
    if |order| > 1 {
      JoinedNames(order[1..], headers);
    } else {
      assert (set k | k in order[1..]) == {};
    }
  }

  /** What the parser sees of the status line beyond its first line feed. */
  function SecondPart(e: CacheEntry): string {
    match Find(e.responseLine, "\n")
    case None => ""
    case Some(i) => e.responseLine[i + 1..] + if e.headers == map[] then "" else "\r"
  }

  /** The lines hidden in the status line bring no name of their own, and no empty line cuts off a
      header they do not have. */
  predicate HarmlessLine(e: CacheEntry) {
    var (names, stopped) := LineNames(SecondPart(e));
    names <= e.headers.Keys && (stopped ==> names == e.headers.Keys)
  }

  /** The text after the first line feed of a block: what the status line hides, then the headers. */
  lemma BlockAfterFeed(e: CacheEntry, order: seq<string>)
    requires Find(e.responseLine, "\n").Some? && (order == [] <==> e.headers == map[])
    requires forall k :: k in order ==> k in e.headers
    ensures var tail := SecondPart(e);
            && (order != [] ==> tail != "" && tail[|tail| - 1] != '\n')
            && AfterStatusLine(Block(e, order))
               == if order == [] then tail else tail + "\n" + Joined(order, e.headers)
  {
    BeforeLineFeed(e.responseLine);
    var first, tail := e.responseLine[..Find(e.responseLine, "\n").value], SecondPart(e);
    if order == [] {
      assert Block(e, order) == first + "\n" + tail;
      FirstLine(first, tail);
    } else {
      var rest := Joined(order, e.headers);
      assert Block(e, order) == first + "\n" + (tail + "\n" + rest);
      FirstLine(first, tail + "\n" + rest);
    }
  }

  lemma NamesInBlock(e: CacheEntry, order: seq<string>)
    requires Servable(e) && IsOrder(order, e.headers)
    ensures forall k :: k in order ==> k in e.headers
    ensures LineNames(AfterStatusLine(Block(e, order))).0 == e.headers.Keys <==> HarmlessLine(e)
  {
    EntryEmittable(e, order);
    assert (set k | k in order) == e.headers.Keys;
    assert order != [] ==> order[0] in e.headers.Keys;
    assert order == [] <==> e.headers == map[];
    if order != [] { JoinedNames(order, e.headers); }
    NoNames();
    var part := LineNames(SecondPart(e));
    assert HarmlessLine(e) <==> part.0 <= e.headers.Keys && (part.1 ==> part.0 == e.headers.Keys);
    if Find(e.responseLine, "\n").None? {
      NoLineFeed(e.responseLine);
      BlockLines(e, order);
      hide Servable, Emittable, IsOrder, LineNames, Joined, Block, AfterStatusLine;
    } else {
      BlockAfterFeed(e, order);
      hide Servable, Emittable, IsOrder, LineNames, Joined, Block, AfterStatusLine, SecondPart;
      if order != [] {
        NamesOfTwo(SecondPart(e), Joined(order, e.headers));
      }
    }
  }

  lemma NoNames()
    ensures LineNames("") == ({}, false)
  {}

  lemma NoLineFeed(s: string)
    requires Find(s, "\n").None?
    ensures OneLine(s)
  {
    FirstLineFeed(s);
  }

  lemma BeforeLineFeed(s: string)
    requires Find(s, "\n").Some?
    ensures var i := Find(s, "\n").value; i < |s| && OneLine(s[..i]) && s == s[..i] + "\n" + s[i + 1..]
  {
    FirstLineFeed(s);
  }

  /** For any status line, one with bare line feeds included: whenever the text a hit sends can be
      read back at all, the names read are those of the entry exactly if the status line is harmless. */
  lemma NamesReadBack(e: CacheEntry, order: seq<string>, clock: Clock, f: Fields)
    requires Servable(e) && IsOrder(order, e.headers)
    requires forall k :: k in order ==> k in e.headers
    requires ParseResponse(EmitHeaders(e, order) + e.data, clock.parseTime, clock.parsed) == Some(f)
    ensures f.headers.Keys == e.headers.Keys <==> HarmlessLine(e)
  {
    BodyReadBack(e, order);
    NamesInBlock(e, order);
    ParsedNames(DEFAULTS, AfterStatusLine(Block(e, order)), clock.parseTime);
    hide Servable, IsOrder, HarmlessLine, EmitHeaders, Block, LineNames, HeaderLines;
  }

  /** The one line that such a status line hides brings its name to what is read. */
  lemma HiddenName(hidden: string, key: string, value: string, more: Option<string>)
    requires OneLine(key) && OneLine(value) && ':' !in key
    requires hidden == HeaderLineText(key, value)
    ensures key in LineNames(Behind(hidden, more)).0
  {
    OneHeaderLine(key, value);
    match more
    case None =>
      OneName(hidden, "");
      NameEndsAtColon(key, value);
    case Some(rest) =>
      var line := HeaderLineText(key, value + "\r");
      assert hidden + "\r" == line;
      OneName(line, rest);
      NameEndsAtColon(key, value + "\r");
  }

  /** A header line behind a bare line feed in the status line of a stored response is sent with every
      hit, and read back as a header of the response, whatever the order of the others. */
  lemma HiddenLineIsRead(
    head: string, data: string, stored: Clock, e: CacheEntry, order: seq<string>, clock: Clock,
    status: string, key: string, value: string)
    requires StoreSpec(head, data, stored) == Some(e) && IsOrder(order, e.headers)
    requires OneLine(status) && OneLine(key) && OneLine(value) && ':' !in key
    requires e.responseLine == status + "\n" + HeaderLineText(key, value)
    ensures forall k :: k in order ==> k in e.headers
    ensures var r := ParseResponse(EmitHeaders(e, order) + e.data, clock.parseTime, clock.parsed);
            r.Some? && key in r.value.headers
  {
    StoredRoundTrip(head, data, stored, e, order, clock);
    StoredIsServable(head, data, stored, e);
    hide StoreSpec, HarmlessLine, SameButCR;
    SecondLine(status, HeaderLineText(key, value));
    WireParse(e, order, clock);
    ParsedNames(DEFAULTS, AfterStatusLine(Block(e, order)), clock.parseTime);
    HiddenBlock(e, order);
    HiddenName(HeaderLineText(key, value), key, value, Emitted(order, e.headers));
    hide *;
  }

  lemma SecondLine(first: string, second: string)
    requires OneLine(first)
    ensures Find(first + "\n" + second, "\n") == Some(|first|)
    ensures (first + "\n" + second)[|first| + 1..] == second
  {
    var s := first + "\n" + second;
    forall i: nat | i < |first| ensures !At(s, "\n", i) {
      LineFeedAt(s, i);
      assert s[i] == first[i] && first[i] in first;
    }
    LineFeedAt(s, |first|);
    FindIs(s, "\n", |first|);
  }

  // ---------------------------------------------------------------- error pages

  lemma NoEnds(s: string)
    requires OneLine(s)
    ensures NoEmptyLine(s) && forall i: nat :: !At(s, CRLF, i)
  {
    forall i: nat ensures !At(s, CRLF, i) { CrlfAt(s, i); }
  }

  lemma PageLines()
    ensures NoEmptyLine(PAGE_LINES)
  {
    var first, second := "Content-Type: text/plain", "Connection: close";
    NoEnds(first);
    NoEnds(second);
    JoinNoEmptyLine(first, second);
    assert PAGE_LINES == first + CRLF + second;
  }

  /** An error page is a response: its status line, its two header lines and its text are where a client
      looks for them. */
  lemma ErrorPageIsResponse(code: string, message: string)
    requires OneLine(code) && OneLine(message)
    ensures var page, status := ErrorPage(code, message), "HTTP/1.1 " + code + " " + message;
            && Find(page, HEADER_END) == Some(|status + CRLF + PAGE_LINES|)
            && BodyOf(page) == "Error: " + message && LinesOf(page) == PAGE_LINES
  {
    var status, body := "HTTP/1.1 " + code + " " + message, "Error: " + message;
    var block, page := status + CRLF + PAGE_LINES, ErrorPage(code, message);
    assert OneLine(status) && OneLine(status + "\r");
    NoEnds(status);
    PageLines();
    assert PAGE_LINES[0] == 'C';
    JoinNoEmptyLine(status, PAGE_LINES);
    assert page == block + HEADER_END + body;
    FirstHeaderEnd(block, body);
    BodyAfter(page, |block|);
    assert page[..|block|] == block && page[|block| + 4..] == body;
    assert block == (status + "\r") + "\n" + PAGE_LINES;
    FirstLine(status + "\r", PAGE_LINES);
    hide NoEmptyLine, ErrorPage, BodyOf;
  }
}
