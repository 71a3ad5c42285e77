/** Concrete inputs on which the code departs from what one would expect of it: response headers taken
    through the parser and the store, and whole forwarding runs. */
module FailingInputs {
  import opened CacheEntries
  import opened Text
  import opened Request
  import opened Response
  import opened Sockets
  import opened Relay
  import opened Freshness
  import opened RoundTrip
  import opened Numbers
  import Tunnel

  const STATUS := "HTTP/1.1 200 OK"

  lemma StatusIsPlain(i: nat)
    ensures OneLine(STATUS) && !At(STATUS, CRLF, i) && NoEmptyLine(STATUS)
  {
    forall j: nat ensures !At(STATUS, CRLF, j) { CrlfAt(STATUS, j); }
  }

  // ---------------------------------------------------------------- one header line

  /** A response header with the status line and the given lines. */
  function Message(lines: string): string { STATUS + CRLF + lines + HEADER_END }

  lemma MessageParts(lines: string)
    requires NoEmptyLine(lines) && lines != "" && lines[0] != '\r' && lines[0] != '\n'
    ensures Find(Message(lines), HEADER_END) == Some(|STATUS + CRLF + lines|)
    ensures LinesOf(Message(lines)) == lines
  {
    var block := STATUS + CRLF + lines;
    forall i: nat ensures !At(STATUS, CRLF, i) { StatusIsPlain(i); }
    JoinNoEmptyLine(STATUS, lines);
    FirstHeaderEnd(block, "");
    assert Message(lines) == block + HEADER_END + "";
    assert Message(lines)[..|block|] == block;
    assert block == (STATUS + "\r") + "\n" + lines;
    StatusIsPlain(0);
    FirstLine(STATUS + "\r", lines);
  }

  /** A header of one line is parsed to what that line sets. */
  lemma OneLineParsed(key: string, value: string, clock: Clock)
    requires OneLine(key) && OneLine(value) && ':' !in key && key != "" && key[0] != '\r'
    requires Header(DEFAULTS, key, value, clock.parseTime).Some?
    ensures ParseResponse(Message(HeaderLineText(key, value)), clock.parseTime, clock.parsed)
            == Some(Validate(Manage(Header(DEFAULTS, key, value, clock.parseTime).value, Seconds(clock.parsed))))
  {
    var line := HeaderLineText(key, value);
    OneHeaderLine(key, value);
    assert line[0] == key[0] && key[0] in key;
    NoEnds(line);
    MessageParts(line);
    NameEndsAtColon(key, value);
    FirstLine(line, "");
    hide Header, Manage, Validate, Message;
    var f := Header(DEFAULTS, key, value, clock.parseTime).value;
    assert HeaderLines(f, "", clock.parseTime) == Some(f);
  }

  /** Without an age and with an Expires at or before the epoch, a response that Cache-Control does not
      restrict is fresh, and its entry has the ticks of Expires as its expiry time. */
  lemma StoredWithoutAge(key: string, value: string, data: string, clock: Clock, f0: Fields)
    requires OneLine(key) && OneLine(value) && ':' !in key && key != "" && key[0] != '\r'
    requires Header(DEFAULTS, key, value, clock.parseTime) == Some(f0)
    requires ChosenAge(f0) <= 0 && f0.expires <= 0 && !f0.control.noStore && !MustValidate(f0)
    ensures var stored := StoreSpec(Message(HeaderLineText(key, value)), data, clock);
            && stored.Some? && stored.value.expiresTime == FromTimeT(f0.expires)
            && !stored.value.requiresValidation
  {
    OneLineParsed(key, value, clock);
    var f := Validate(Manage(f0, Seconds(clock.parsed)));
    assert f.expires == f0.expires && !f.needValidate && f.control == f0.control;
    hide ParseResponse, Header, Manage, Validate, CopyHeaders, ResponseLine, FromTimeT, Message, HeaderLineText;
  }

  const ANCIENT := "Wed, 01 Jan 1000 00:00:00 GMT"

  lemma ExpiresHeader(value: string, parseTime: DateParser)
    ensures var f := DEFAULTS.(headers := DEFAULTS.headers["Expires" := value], expires := parseTime(value));
            Header(DEFAULTS, "Expires", value, parseTime) == Some(f) && !MustValidate(f)
  {
    var f := DEFAULTS.(headers := DEFAULTS.headers["Expires" := value], expires := parseTime(value));
    assert GetHeader(f, "Cache-Control") == "";
  }

  /** An Expires in the year 1000: its ticks wrap around to the year 2169, and the entry stored from the
      response is served in 2023. */
  lemma AncientExpiresIsServed(data: string, clock: Clock)
    requires clock.parseTime(ANCIENT) == -30_610_224_000
    ensures var stored := StoreSpec(Message(HeaderLineText("Expires", ANCIENT)), data, clock);
            stored.Some? && !stored.value.IsExpired(1_700_000_000_000_000_000)
  {
    ExpiresHeader(ANCIENT, clock.parseTime);
    assert OneLine(ANCIENT) && OneLine("Expires") && ':' !in "Expires";
    var f0 := Header(DEFAULTS, "Expires", ANCIENT, clock.parseTime).value;
    assert FromTimeT(-30_610_224_000) == 6_283_264_147_419_103_232;
    hide Header, StoreSpec, MustValidate, HeaderLineText, Message, FromTimeT, OneLine;
    StoredWithoutAge("Expires", ANCIENT, data, clock, f0);
  }

  function AgeText(n: nat): string { "max-age=" + DecimalText(n) }

  lemma AgeChars(value: string, digits: string, i: nat)
    requires value == "max-age=" + digits && (forall c :: c in digits ==> IsDigit(c)) && i < |value|
    ensures value[i] in {'m', 'a', 'x', '-', 'g', 'e', '='} || IsDigit(value[i])
  {
    if i >= 8 {
      assert value[i] == digits[i - 8];
      assert digits[i - 8] in digits;
    }
  }

  /** No other directive occurs in such a value. */
  lemma AgeIsAlone(n: nat)
    ensures Find(AgeText(n), "s-maxage=").None? && !Contains(AgeText(n), "no-store")
    ensures !Contains(AgeText(n), "no-cache") && !Contains(AgeText(n), "must-revalidate") && OneLine(AgeText(n))
  {
    var value := AgeText(n);
    DecimalParsed(n);
    hide DecimalText, Decimal;
    forall i: nat | i < |value| ensures value[i] in {'m', 'a', 'x', '-', 'g', 'e', '='} || IsDigit(value[i]) {
      AgeChars(value, DecimalText(n), i);
    }
    hide AgeText;
    forall i: nat ensures !At(value, "s-maxage=", i) && !At(value, "no-store", i) && !At(value, "no-cache", i)
                          && !At(value, "must-revalidate", i) {
      if i + 8 <= |value| { assert value[i..i + 8][0] == value[i]; }
      if i + 9 <= |value| { assert value[i..i + 9][0] == value[i]; }
      if i + 15 <= |value| { assert value[i..i + 15][1] == value[i + 1]; }
    }
  }

  lemma AgeNumber(n: int64)
    requires n >= 0
    ensures WithAge(-1, AgeText(n), "max-age=") == Some(n)
  {
    var value := AgeText(n);
    assert value[0..8] == "max-age=";
    FindIs(value, "max-age=", 0);
    assert value[8..] == DecimalText(n);
    assert DecimalText(n) + "" == DecimalText(n);
    DecimalIsRead(n, "", -TWO_TO_THE_63, TWO_TO_THE_63);
  }

  lemma ZeroAgeHeader(value: string, parseTime: DateParser)
    requires value == AgeText(0)
    ensures var r := Header(DEFAULTS, "Cache-Control", value, parseTime);
            && r.Some? && ChosenAge(r.value) <= 0 && r.value.expires == 0 && !r.value.control.noStore
            && !MustValidate(r.value)
  {
    AgeIsAlone(0);
    AgeNumber(0);
    hide Find, Contains, Stol, Stoi, AgeText;
    assert GetHeader(Header(DEFAULTS, "Cache-Control", value, parseTime).value, "Cache-Control") == value;
  }

  /** A response with `max-age=0` is served at any time. */
  lemma ZeroAgeIsServedForever(data: string, clock: Clock)
    ensures AgeText(0) == "max-age=0"
    ensures var stored := StoreSpec(Message(HeaderLineText("Cache-Control", AgeText(0))), data, clock);
            stored.Some? && forall now: Tick :: !stored.value.IsExpired(now)
  {
    assert FromTimeT(0) == 0 && OneLine("Cache-Control") && ':' !in "Cache-Control";
    AgeIsAlone(0);
    assert AgeText(0) == "max-age=0";
    hide *;
    ZeroAgeHeader(AgeText(0), clock.parseTime);
    StoredWithoutAge("Cache-Control", AgeText(0), data, clock,
                     Header(DEFAULTS, "Cache-Control", AgeText(0), clock.parseTime).value);
    NeverExpires(StoreSpec(Message(HeaderLineText("Cache-Control", AgeText(0))), data, clock).value);
  }

  lemma NeverExpires(e: CacheEntry)
    requires e.expiresTime == 0 && !e.requiresValidation
    ensures forall now: Tick :: !e.IsExpired(now)
  {}

  // ---------------------------------------------------------------- two header lines

  /** A name that ends at its colon and begins no line with a carriage return. */
  predicate PlainName(key: string) { OneLine(key) && ':' !in key && key != "" && key[0] != '\r' }

  function Lines(k1: string, v1: string, k2: string, v2: string): string {
    HeaderLineText(k1, v1) + CRLF + HeaderLineText(k2, v2)
  }

  lemma TwoLineText(k1: string, v1: string, k2: string, v2: string)
    requires PlainName(k1) && OneLine(v1) && PlainName(k2) && OneLine(v2)
    ensures var text, line1, line2 := Lines(k1, v1, k2, v2), HeaderLineText(k1, v1 + "\r"), HeaderLineText(k2, v2);
            && NoEmptyLine(text) && text != "" && text[0] != '\r' && text[0] != '\n' && line1 != "" && line2 != ""
            && NextLine(text) == (line1, line2) && NextLine(line2) == (line2, "")
  {
    var line1, line2 := HeaderLineText(k1, v1), HeaderLineText(k2, v2);
    OneHeaderLine(k1, v1);
    OneHeaderLine(k2, v2);
    assert line1[0] == k1[0] && k1[0] in k1 && line2[0] == k2[0] && k2[0] in k2;
    NoEnds(line1);
    NoEnds(line2);
    JoinNoEmptyLine(line1, line2);
    assert Lines(k1, v1, k2, v2) == HeaderLineText(k1, v1 + "\r") + "\n" + line2;
    FirstLine(HeaderLineText(k1, v1 + "\r"), line2);
    FirstLine(line2, "");
  }

  /** A header of two lines: the value of the first one keeps its carriage return. */
  lemma TwoLinesParsed(k1: string, v1: string, k2: string, v2: string, clock: Clock, f1: Fields, f2: Fields)
    requires PlainName(k1) && OneLine(v1) && PlainName(k2) && OneLine(v2)
    requires Header(DEFAULTS, k1, v1 + "\r", clock.parseTime) == Some(f1)
    requires Header(f1, k2, v2, clock.parseTime) == Some(f2)
    ensures ParseResponse(Message(Lines(k1, v1, k2, v2)), clock.parseTime, clock.parsed)
            == Some(Validate(Manage(f2, Seconds(clock.parsed))))
  {
    var lines, line2 := Lines(k1, v1, k2, v2), HeaderLineText(k2, v2);
    TwoLineText(k1, v1, k2, v2);
    MessageParts(lines);
    NameEndsAtColon(k1, v1 + "\r");
    NameEndsAtColon(k2, v2);
    hide Header, Manage, Validate, Message, Lines, NextLine;
    assert HeaderLines(f2, "", clock.parseTime) == Some(f2);
    assert HeaderLines(f1, line2, clock.parseTime) == Some(f2);
  }

  const CACHE_CONTROL := "Cache-Control"

  lemma NoStoreThenPublic()
    ensures NumbersParse(CACHE_CONTROL, "no-store\r") && NumbersParse(CACHE_CONTROL, "public")
    ensures !Contains("public", "no-store") && Contains("no-store\r", "no-store")
  {
    var value := "no-store\r";
    forall i: nat ensures !At(value, "max-age=", i) && !At(value, "s-maxage=", i) {
      assert i <= 1 ==> value[i..i + 8][0] == value[i] != 'm';
      assert i == 0 ==> value[i..i + 9][0] == value[i] != 's';
    }
    assert Find("public", "s-maxage=").None? && Find("public", "max-age=").None?;
    assert At("no-store\r", "no-store", 0);
  }

  lemma TwoCacheControls(v1: string, v2: string, parseTime: DateParser) returns (f1: Fields, f2: Fields)
    requires NumbersParse(CACHE_CONTROL, v1) && NumbersParse(CACHE_CONTROL, v2)
    ensures Header(DEFAULTS, CACHE_CONTROL, v1, parseTime) == Some(f1)
    ensures Header(f1, CACHE_CONTROL, v2, parseTime) == Some(f2)
    ensures f2.control.noStore == Contains(v2, "no-store")
  {
    HeaderAccepts(DEFAULTS, CACHE_CONTROL, v1, parseTime);
    f1 := Header(DEFAULTS, CACHE_CONTROL, v1, parseTime).value;
    HeaderAccepts(f1, CACHE_CONTROL, v2, parseTime);
    f2 := Header(f1, CACHE_CONTROL, v2, parseTime).value;
    hide WithAge, Contains, NumbersParse;
  }

  lemma NoStoreKept(f: Fields, seconds: int64)
    ensures Validate(Manage(f, seconds)).control == f.control
  {}

  lemma PlainNoStore()
    ensures PlainName(CACHE_CONTROL) && OneLine("no-store") && OneLine("public") && "no-store" + "\r" == "no-store\r"
  {}

  /** A response whose first Cache-Control line says `no-store` and whose second one does not is stored. */
  lemma EarlierNoStoreIsIgnored(data: string, clock: Clock)
    ensures StoreSpec(Message(Lines(CACHE_CONTROL, "no-store", CACHE_CONTROL, "public")), data, clock).Some?
  {
    NoStoreThenPublic();
    PlainNoStore();
    hide NumbersParse, PlainName, Contains, Message, OneLine, Lines, Header, ParseResponse, Manage, Validate, EntryOf, ResponseLine;
    var f1, f2 := TwoCacheControls("no-store\r", "public", clock.parseTime);
    TwoLinesParsed(CACHE_CONTROL, "no-store", CACHE_CONTROL, "public", clock, f1, f2);
    NoStoreKept(f2, Seconds(clock.parsed));
  }

  // ---------------------------------------------------------------- dates and ages

  const YEAR_2099 := "Thu, 01 Jan 2099 00:00:00 GMT"
  const YEAR_2100 := "Fri, 01 Jan 2100 00:00:00 GMT"

  lemma DateThenExpires(date: string, expires: string, parseTime: DateParser) returns (f1: Fields, f2: Fields)
    ensures Header(DEFAULTS, "Date", date, parseTime) == Some(f1)
    ensures Header(f1, "Expires", expires, parseTime) == Some(f2)
    ensures f2.date == parseTime(date) && f2.expires == parseTime(expires) && f2.control == DEFAULTS.control
  {
    f1 := Header(DEFAULTS, "Date", date, parseTime).value;
    f2 := Header(f1, "Expires", expires, parseTime).value;
  }

  lemma PlainDates()
    ensures PlainName("Date") && PlainName("Expires") && OneLine(YEAR_2099) && OneLine(YEAR_2100)
  {}

  lemma FreshByExpires(f: Fields, seconds: int64)
    requires f.control == DEFAULTS.control && f.expires > 0
    ensures var g := Validate(Manage(f, seconds));
            && g.expires == f.expires && g.date == f.date && g.isFresh == (f.expires > seconds)
            && FreshnessLifetime(g) == Some(f.expires - f.date)
  {}

  /** A Date in the year 2100 with an Expires one year before it: its lifetime is negative and its age 0,
      and until 2099 the code finds it fresh. */
  lemma FutureDateIsFresh(clock: Clock)
    requires clock.parseTime(YEAR_2100 + "\r") == 4_102_444_800 && clock.parseTime(YEAR_2099) == 4_070_908_800
    requires Seconds(clock.parsed) < 4_070_908_800
    ensures var r := ParseResponse(Message(Lines("Date", YEAR_2100, "Expires", YEAR_2099)), clock.parseTime, clock.parsed);
            && r.Some? && r.value.isFresh && FreshnessLifetime(r.value) == Some(-31_536_000)
            && ApparentAge(r.value, Seconds(clock.parsed)) == 0
  {
    PlainDates();
    hide OneLine, Message, Lines, Header, ParseResponse, Manage, Validate, Seconds;
    var f1, f2 := DateThenExpires(YEAR_2100 + "\r", YEAR_2099, clock.parseTime);
    TwoLinesParsed("Date", YEAR_2100, "Expires", YEAR_2099, clock, f1, f2);
    FreshByExpires(f2, Seconds(clock.parsed));
  }

  const YEAR_2025 := "Wed, 01 Jan 2025 00:00:00 GMT"
  const LARGEST := TWO_TO_THE_63 - 1

  lemma DateThenAge(date: string, n: int64, parseTime: DateParser) returns (f1: Fields, f2: Fields)
    requires n > 0
    ensures Header(DEFAULTS, "Date", date, parseTime) == Some(f1)
    ensures Header(f1, "Cache-Control", AgeText(n), parseTime) == Some(f2)
    ensures f2.date == parseTime(date) && ChosenAge(f2) == n && !f2.control.noStore && !MustValidate(f2)
  {
    AgeIsAlone(n);
    AgeNumber(n);
    f1 := Header(DEFAULTS, "Date", date, parseTime).value;
    hide Find, Contains, Stol, Stoi, AgeText;
    f2 := Header(f1, "Cache-Control", AgeText(n), parseTime).value;
    assert GetHeader(f2, "Cache-Control") == AgeText(n);
  }

  lemma PlainDate()
    ensures PlainName("Date") && PlainName("Cache-Control") && OneLine(YEAR_2025)
  {}

  lemma StoredWithAge(f: Fields, line: string, data: string, clock: Clock)
    requires ChosenAge(f) == LARGEST && !MustValidate(f) && f.date == 1_735_689_600
    requires f.date <= Seconds(clock.parsed)
    ensures var g := Validate(Manage(f, Seconds(clock.parsed)));
            && g.isFresh && g.expires < 0 && g.control == f.control
            && var e := EntryOf(g, line, data, clock.created);
               e.expiresTime == 1_735_689_599_000_000_000 && !e.requiresValidation
  {
    var g := Validate(Manage(f, Seconds(clock.parsed)));
    assert Wrap64(f.date + LARGEST) == f.date - 1 - TWO_TO_THE_63;
    TicksWrap(f.date - 1);
    hide Contains, CopyHeaders, FromTimeT, Wrap64;
  }

  lemma TicksWrap(seconds: nat)
    requires seconds < 2_000_000_000
    ensures FromTimeT(seconds - TWO_TO_THE_63) == seconds * TICKS_PER_SECOND
  {
    var x := (seconds - TWO_TO_THE_63) * TICKS_PER_SECOND;
    assert TWO_TO_THE_63 * TICKS_PER_SECOND == TWO_TO_THE_64 * (TICKS_PER_SECOND / 2);
    assert x + TWO_TO_THE_63
           == TWO_TO_THE_64 * (0 - TICKS_PER_SECOND / 2) + (seconds * TICKS_PER_SECOND + TWO_TO_THE_63);
  }

  /** The largest age that parses, with a Date in 2025: the parser finds the response fresh, but Date plus
      age wraps around, and the entry counts as expired from its Date on. */
  lemma LargestAgeIsExpired(data: string, clock: Clock, now: Tick)
    requires clock.parseTime(YEAR_2025 + "\r") == 1_735_689_600 <= Seconds(clock.parsed)
    requires now >= 1_735_689_600_000_000_000
    ensures var head := Message(Lines("Date", YEAR_2025, "Cache-Control", AgeText(LARGEST)));
            var r, stored := ParseResponse(head, clock.parseTime, clock.parsed), StoreSpec(head, data, clock);
            r.Some? && r.value.isFresh && stored.Some? && stored.value.IsExpired(now)
  {
    PlainDate();
    AgeIsAlone(LARGEST);
    hide OneLine, Message, Lines, Header, ParseResponse, Manage, Validate, Seconds, AgeText, EntryOf, ChosenAge,
      MustValidate, ResponseLine, Contains;
    var f1, f2 := DateThenAge(YEAR_2025 + "\r", LARGEST, clock.parseTime);
    TwoLinesParsed("Date", YEAR_2025, "Cache-Control", AgeText(LARGEST), clock, f1, f2);
    var head := Message(Lines("Date", YEAR_2025, "Cache-Control", AgeText(LARGEST)));
    StoredWithAge(f2, ResponseLine(head), data, clock);
  }

  // ---------------------------------------------------------------- a line feed in the status line

  const HIDING := "HTTP/1.1 200 OK\nX-Note: a"

  lemma HidingIsPlain()
    ensures NoEmptyLine(HIDING) && (forall i: nat :: !At(HIDING, CRLF, i))
    ensures HIDING == STATUS + "\n" + HeaderLineText("X-Note", "a")
  {
    forall i: nat ensures !At(HIDING, CRLF, i) { CrlfAt(HIDING, i); }
  }

  /** A header that consists of a status line alone, cut where it should be. */
  lemma StatusAlone(line: string)
    requires NoEmptyLine(line) && forall i: nat :: !At(line, CRLF, i)
    ensures Find(line + HEADER_END, HEADER_END) == Some(|line|)
    ensures ResponseLine(line + HEADER_END) == line && LinesOf(line + HEADER_END) == AfterStatusLine(line)
  {
    var head := line + HEADER_END;
    FirstHeaderEnd(line, "");
    assert head == line + HEADER_END + "" && head[..|line|] == line;
    forall i: nat | i < |line| ensures !At(head, CRLF, i) {
      CrlfAt(head, i);
      CrlfAt(line, i);
      assert head[i] == line[i];
    }
    assert head[|line|..|line| + 2] == CRLF;
    FindIs(head, CRLF, |line|);
  }

  lemma HidingRead()
    ensures Find(HIDING + HEADER_END, HEADER_END) == Some(|HIDING|)
    ensures ResponseLine(HIDING + HEADER_END) == HIDING
    ensures LinesOf(HIDING + HEADER_END) == HeaderLineText("X-Note", "a")
  {
    HidingIsPlain();
    StatusIsPlain(0);
    hide NoEmptyLine, At, HeaderLineText, ResponseLine, LinesOf;
    StatusAlone(HIDING);
    FirstLine(STATUS, HeaderLineText("X-Note", "a"));
  }

  /** One header that means nothing to the proxy. */
  lemma NoteParsed(line: string, parseTime: DateParser) returns (f: Fields)
    requires line == HeaderLineText("X-Note", "a")
    ensures HeaderLines(DEFAULTS, line, parseTime) == Some(f)
    ensures f.headers == map["X-Note" := "a"] && !f.control.noStore
  {
    OneHeaderLine("X-Note", "a");
    FirstLine(line, "");
    NameEndsAtColon("X-Note", "a");
    f := HeaderLine(DEFAULTS, line, parseTime).value;
    assert f.headers == map["X-Note" := "a"] && !f.control.noStore;
    assert HeaderLines(f, "", parseTime) == Some(f);
    hide HeaderLine, HeaderLineText, NextLine, OneLine;
  }

  lemma NothingCopied(f: Fields)
    requires f.headers == map["X-Note" := "a"]
    ensures CopyHeaders(STORED_HEADERS, f) == map[]
  {
    CopiedHeaders(STORED_HEADERS, f);
    assert forall k :: k in STORED_HEADERS ==> GetHeader(f, k) == "";
    hide CopyHeaders;
    assert forall k :: k !in CopyHeaders(STORED_HEADERS, f);
  }

  lemma HidingStored(data: string, stored: Clock)
    ensures var store := StoreSpec(HIDING + HEADER_END, data, stored);
            store.Some? && store.value.headers == map[] && store.value.responseLine == HIDING
  {
    HidingRead();
    var head := HIDING + HEADER_END;
    var f0 := NoteParsed(LinesOf(head), stored.parseTime);
    hide HeaderLineText, HeaderLines, AfterStatusLine, ResponseLine, CopyHeaders, FromTimeT, Contains;
    var f := Validate(Manage(f0, Seconds(stored.parsed)));
    assert ParseResponse(head, stored.parseTime, stored.parsed) == Some(f);
    NothingCopied(f);
  }

  lemma NothingToOrder(headers: map<string, string>)
    requires headers == map[]
    ensures IsOrder([], headers)
  {}

  lemma NotePlain()
    ensures OneLine(STATUS) && OneLine("X-Note") && OneLine("a") && ':' !in "X-Note"
  {}

  /** The response is stored with no headers at all, and every hit sends a header that it hid in its
      status line. */
  lemma HiddenLineIsServed(data: string, stored: Clock, clock: Clock)
    ensures var store := StoreSpec(HIDING + HEADER_END, data, stored);
            && store.Some? && store.value.headers == map[]
            && var r := ParseResponse(EmitHeaders(store.value, []) + store.value.data, clock.parseTime, clock.parsed);
               r.Some? && "X-Note" in r.value.headers
  {
    hide *;
    HidingIsPlain();
    HidingStored(data, stored);
    NotePlain();
    var e := StoreSpec(HIDING + HEADER_END, data, stored).value;
    NothingToOrder(e.headers);
    HiddenLineIsRead(HIDING + HEADER_END, data, stored, e, [], clock, STATUS, "X-Note", "a");
  }

  // ---------------------------------------------------------------- a read that fails in the header

  const REQUEST := Parsed("GET / HTTP/1.1\r\nHost: a\r\n\r\n", "GET", "/", "a", "80")

  const FIRST := STATUS + CRLF
  const WHOLE := FIRST + CRLF

  /** The same bytes in one piece, and in two pieces with a failed read between them. */
  const SMOOTH := World(true, [Accept(100)], [Data(WHOLE), Closed], [Accept(100)])
  const CUT := World(true, [Accept(100)], [Data(FIRST), RecvError, Data(CRLF), Closed], [Accept(100), Accept(100)])

  lemma SentAtOnce(data: Bytes, n: Positive, rest: seq<SendEvent>)
    requires 0 < |data| <= n
    ensures SendAllSpec(data, [Accept(n)] + rest) == SendResult(Sent, data, rest)
  {
    assert data[|data|..] == "" && ([Accept(n)] + rest)[1..] == rest;
    assert SendAllSpec("", rest) == SendResult(Sent, "", rest);
  }

  lemma PortParses()
    ensures Stoi(Port(REQUEST)).Some?
  {
    assert Port(REQUEST) == "80" && SkipSpaces("80") == "80";
    assert "80"[1..] == "0" && LeadingDigits("0") == "0" && LeadingDigits("80") == "80";
    assert "80"[..1] == "8" && Decimal("8") == 8 && Decimal("80") == 80;
  }

  /** The head in full and its first line: neither gives a length or a chunked marker, and only the
      full one has a header end. */
  lemma HeadFacts()
    ensures WHOLE == STATUS + HEADER_END && Find(WHOLE, HEADER_END) == Some(|STATUS|)
    ensures !Contains(FIRST, HEADER_END)
    ensures ContentLength(FIRST) == Some(0) && ContentLength(WHOLE) == Some(0)
    ensures Cacheable(REQUEST, FIRST) && Cacheable(REQUEST, WHOLE)
    ensures !Contains(FIRST, "Transfer-Encoding: chunked") && !Contains(WHOLE, "Transfer-Encoding: chunked")
  {
    assert WHOLE == STATUS + HEADER_END + "" == STATUS + HEADER_END;
    StatusIsPlain(0);
    FirstHeaderEnd(STATUS, "");
    forall i: nat ensures !At(FIRST, HEADER_END, i) {
      HeaderEndAt(FIRST, i);
      CrlfAt(FIRST, i);
    }
    forall i: nat ensures !At(WHOLE, "Content-Length: ", i) && !At(FIRST, "Content-Length: ", i) {
      assert i <= 3 ==> WHOLE[i] != 'C' && FIRST[i] != 'C';
      assert i <= 3 ==> WHOLE[i..i + 16][0] == WHOLE[i];
      assert i <= 1 ==> FIRST[i..i + 16][0] == FIRST[i];
    }
  }

  lemma HeadInOnePiece(a: Chunk, rest: seq<RecvEvent>)
    requires Contains(a, HEADER_END)
    ensures ReadHead([Data(a)] + rest, "") == Head(a, rest, false)
    ensures Contains(LeadingData([Data(a)] + rest), HEADER_END)
  {
    assert ([Data(a)] + rest)[1..] == rest && "" + a == a;
    FindInLonger(a, LeadingData(rest), HEADER_END);
  }

  lemma HeadCut(a: Chunk, rest: seq<RecvEvent>)
    requires !Contains(a, HEADER_END)
    ensures ReadHead([Data(a), RecvError] + rest, "") == Head(a, rest, false)
    ensures LeadingData([Data(a), RecvError] + rest) == a
  {
    var recvs := [Data(a), RecvError] + rest;
    assert recvs[1..] == [RecvError] + rest && recvs[1..][1..] == rest;
    assert "" + a == a && a + "" == a;
    assert ReadHead(recvs[1..], a) == Head(a, rest, false) && LeadingData(recvs[1..]) == "";
  }

  lemma BodyEnds(f: Framing, s: Body)
    requires s.recvs == [Closed] && s.phase == Reading
    ensures BodyRun(f, s).phase == Done && BodyRun(f, s).consumed == s.consumed
  {
    var s' := BodyStep(f, s);
    assert BodyRun(f, s') == s';
  }

  lemma BodyEndsAfter(f: Framing, s: Body, b: Chunk)
    requires s.recvs == [Data(b), Closed] && s.phase == Reading && s.sends == [Accept(100)] && |b| <= 100
    requires f.contentLength == 0 && !f.chunked
    ensures BodyRun(f, s).phase == Done && BodyRun(f, s).consumed == s.consumed + b
  {
    SentAtOnce(b, 100, []);
    assert [Accept(100)] + [] == [Accept(100)] && s.recvs[1..] == [Closed];
    hide SendAllSpec;
    BodyEnds(f, BodyStep(f, s));
  }

  /** The request is sent, the head read in one go, and everything sent to the client at once. */
  lemma RunFinishes(r: Parsed, w: World, head: Head, framing: Framing, start: Body, clock: Clock)
    requires r.hostname != "" && Stoi(Port(r)).Some? && w.connects
    requires SendAllSpec(r.raw, w.originSends).status == Sent
    requires head == ReadHead(w.originRecvs, "") && !head.blocked && head.bytes != ""
    requires SendAllSpec(head.bytes, w.clientSends).status == Sent && ContentLength(head.bytes).Some?
    requires framing == FramingOf(r, head.bytes)
    requires start == BodyStart(r, head, SendAllSpec(head.bytes, w.clientSends))
    requires BodyRun(framing, start).phase == Done
    ensures var out := Forward(r, w, clock);
            out.status == Finished && out.consumed == BodyRun(framing, start).consumed
  {
    hide Stoi, StoreSpec, ContentLength, Contains, Cacheable, SendAllSpec, BodyOf, ReadHead, ErrorPage, BodyRun,
      BodyStart, FramingOf;
  }

  lemma SmoothRun(clock: Clock)
    ensures HeaderArrives(SMOOTH)
    ensures var out := Forward(REQUEST, SMOOTH, clock);
            out.status == Finished && out.consumed == WHOLE
  {
    PortParses();
    HeadFacts();
    SentAtOnce(REQUEST.raw, 100, []);
    SentAtOnce(WHOLE, 100, []);
    assert [Accept(100)] + [] == [Accept(100)] && SMOOTH.originRecvs == [Data(WHOLE)] + [Closed];
    assert Contains(WHOLE, HEADER_END);
    hide Stoi, Port, StoreSpec, ContentLength, Contains, Cacheable, SendAllSpec, BodyOf, ReadHead, Forward, BodyRun,
      LeadingData;
    HeadInOnePiece(WHOLE, [Closed]);
    var head, sent := Head(WHOLE, [Closed], false), SendAllSpec(WHOLE, SMOOTH.clientSends);
    var framing, start := FramingOf(REQUEST, WHOLE), BodyStart(REQUEST, head, sent);
    BodyEnds(framing, start);
    RunFinishes(REQUEST, SMOOTH, head, framing, start, clock);
  }

  lemma CutRun(clock: Clock)
    ensures !HeaderArrives(CUT)
    ensures var out := Forward(REQUEST, CUT, clock);
            out.status == Finished && out.consumed == WHOLE
  {
    PortParses();
    HeadFacts();
    SentAtOnce(REQUEST.raw, 100, []);
    SentAtOnce(FIRST, 100, [Accept(100)]);
    assert [Accept(100)] + [] == [Accept(100)] && [Accept(100)] + [Accept(100)] == CUT.clientSends;
    assert CUT.originRecvs == [Data(FIRST), RecvError] + [Data(CRLF), Closed];
    hide Stoi, Port, StoreSpec, ContentLength, Contains, Cacheable, SendAllSpec, BodyOf, ReadHead, Forward, BodyRun;
    HeadCut(FIRST, [Data(CRLF), Closed]);
    var head, sent := Head(FIRST, [Data(CRLF), Closed], false), SendAllSpec(FIRST, CUT.clientSends);
    var framing, start := FramingOf(REQUEST, FIRST), BodyStart(REQUEST, head, sent);
    BodyEndsAfter(framing, start, CRLF);
    RunFinishes(REQUEST, CUT, head, framing, start, clock);
  }

  lemma WholeIsStored(clock: Clock)
    ensures StoredFromStream(REQUEST, WHOLE, clock).Some?
  {
    HeadFacts();
    assert WHOLE[..|STATUS| + 4] == WHOLE && WHOLE[..|STATUS|] == STATUS;
    StatusIsPlain(0);
    FirstLine(STATUS, "");
    assert HeaderLines(DEFAULTS, "", clock.parseTime) == Some(DEFAULTS);
    hide Contains, Manage, Validate, NextLine, EntryOf, ResponseLine;
    var f := Validate(Manage(DEFAULTS, Seconds(clock.parsed)));
    assert ParseResponse(WHOLE, clock.parseTime, clock.parsed) == Some(f);
    NoStoreKept(DEFAULTS, Seconds(clock.parsed));
  }

  /** Two runs that read the same bytes, give their clients the same and end well: the one whose read
      failed in the middle of the header does not store what the other one does. */
  lemma CutHeaderIsNotStored(clock: Clock)
    ensures var smooth, cut := Forward(REQUEST, SMOOTH, clock), Forward(REQUEST, CUT, clock);
            && smooth.status == Finished && cut.status == Finished
            && smooth.consumed == cut.consumed && smooth.delivered == cut.delivered
            && smooth.stored.Some? && cut.stored.None?
  {
    hide *;
    SmoothRun(clock);
    CutRun(clock);
    Transparent(REQUEST, SMOOTH, clock);
    Transparent(REQUEST, CUT, clock);
    WholeIsStored(clock);
  }

  // ---------------------------------------------------------------- where reads end

  const CHUNKED_HEAD := Message(CHUNKED)

  /** The same stream cut in two ways: once a read ends with the last chunk, once none does. */
  const AT_CHUNK := World(
    true, [Accept(100)], [Data(CHUNKED_HEAD), Data(LAST_CHUNK), Data("X"), Closed],
    [Accept(100), Accept(100), Accept(100)])
  const ACROSS := World(
    true, [Accept(100)], [Data(CHUNKED_HEAD), Data("0\r\n"), Data("\r\nX"), Closed],
    [Accept(100), Accept(100), Accept(100)])

  lemma LacksLength(s: string)
    requires 'C' !in s
    ensures !Contains(s, LENGTH)
  {
    forall i: nat ensures !At(s, LENGTH, i) {
      if i + 16 <= |s| {
        assert s[i..i + 16][0] == s[i] && s[i] in s;
        assert LENGTH[0] == 'C';
      }
    }
  }

  lemma ContainsMiddle(before: string, pattern: string, after: string)
    ensures Contains(before + pattern + after, pattern)
  {
    assert (before + pattern + after)[|before|..|before| + |pattern|] == pattern;
    assert At(before + pattern + after, pattern, |before|);
  }

  lemma ChunkedHeadLetters()
    ensures 'C' !in CHUNKED_HEAD && |CHUNKED_HEAD| <= 100
  {
    assert 'C' !in STATUS && 'C' !in CHUNKED && 'C' !in CRLF && 'C' !in HEADER_END;
    assert |STATUS| == 15 && |CHUNKED| == 26;
  }

  lemma ChunkedHeadBegins()
    ensures Cacheable(REQUEST, CHUNKED_HEAD)
  {
    assert OK_PREFIX <= STATUS <= CHUNKED_HEAD;
  }

  lemma ChunkedHeadEnd()
    ensures Find(CHUNKED_HEAD, HEADER_END) == Some(|CHUNKED_HEAD| - 4)
  {
    NoEnds(CHUNKED);
    MessageParts(CHUNKED);
  }

  lemma ChunkedHeadMarker()
    ensures Contains(CHUNKED_HEAD, CHUNKED)
  {
    ContainsMiddle(STATUS + CRLF, CHUNKED, HEADER_END);
  }

  lemma NoLengthLine(head: string)
    requires !Contains(head, LENGTH)
    ensures ContentLength(head) == Some(0)
  {}

  lemma EndsWithHeader(head: string)
    requires |head| >= 4 && Find(head, HEADER_END) == Some(|head| - 4)
    ensures BodyOf(head) == ""
  {}

  lemma ChunkedHeadFacts()
    ensures Find(CHUNKED_HEAD, HEADER_END) == Some(|CHUNKED_HEAD| - 4)
    ensures ContentLength(CHUNKED_HEAD) == Some(0) && Contains(CHUNKED_HEAD, CHUNKED)
    ensures Cacheable(REQUEST, CHUNKED_HEAD) && |CHUNKED_HEAD| <= 100 && BodyOf(CHUNKED_HEAD) == ""
  {
    ChunkedHeadLetters();
    assert |CHUNKED_HEAD| >= 4;
    hide *;
    ChunkedHeadEnd();
    LacksLength(CHUNKED_HEAD);
    NoLengthLine(CHUNKED_HEAD);
    ChunkedHeadMarker();
    ChunkedHeadBegins();
    EndsWithHeader(CHUNKED_HEAD);
  }

  lemma ChunkedParses(clock: Clock) returns (f: Fields)
    ensures ParseResponse(CHUNKED_HEAD, clock.parseTime, clock.parsed) == Some(f) && !f.control.noStore
  {
    assert OneLine("Transfer-Encoding") && OneLine("chunked") && ':' !in "Transfer-Encoding";
    var f0 := Header(DEFAULTS, "Transfer-Encoding", "chunked", clock.parseTime).value;
    assert f0.control == DEFAULTS.control;
    assert HeaderLineText("Transfer-Encoding", "chunked") == CHUNKED;
    OneLineParsed("Transfer-Encoding", "chunked", clock);
    hide Header, Manage, Validate, ParseResponse, Message, HeaderLineText, OneLine;
    NoStoreKept(f0, Seconds(clock.parsed));
    f := Validate(Manage(f0, Seconds(clock.parsed)));
  }

  /** What is stored of such a stream is everything behind the header. */
  lemma ChunkedStored(body: string, clock: Clock)
    ensures var stored := StoredFromStream(REQUEST, CHUNKED_HEAD + body, clock);
            stored.Some? && stored.value.data == body
  {
    var stream := CHUNKED_HEAD + body;
    ChunkedHeadFacts();
    FindInLonger(CHUNKED_HEAD, body, HEADER_END);
    var f := ChunkedParses(clock);
    assert stream[..|CHUNKED_HEAD|] == CHUNKED_HEAD && stream[|CHUNKED_HEAD|..] == body;
    assert Cacheable(REQUEST, stream);
    hide ParseResponse, Find, Contains, Cacheable, EntryOf, ResponseLine, Message;
    assert StoreSpec(CHUNKED_HEAD, body, clock).Some?;
    StoredData(CHUNKED_HEAD, body, clock, StoreSpec(CHUNKED_HEAD, body, clock).value);
  }

  /** One read of the body: the loop ends with it or goes on behind it. */
  lemma BodyReadsOne(f: Framing, s: Body, b: Chunk, recvs: seq<RecvEvent>, sends: seq<SendEvent>) returns (s': Body)
    requires s.phase == Reading && s.recvs == [Data(b)] + recvs && s.sends == [Accept(100)] + sends && |b| <= 100
    ensures BodyRun(f, s) == BodyRun(f, s')
    ensures s'.recvs == recvs && s'.sends == sends && s'.consumed == s.consumed + b
    ensures s'.phase == if Complete(f, s.received + |b|, b) then Done else Reading
  {
    SentAtOnce(b, 100, sends);
    assert s.recvs[1..] == recvs;
    hide SendAllSpec;
    s' := BodyStep(f, s);
  }

  lemma ChunkedStart(w: World, rest: seq<RecvEvent>) returns (head: Head, framing: Framing, start: Body)
    requires w.originRecvs == [Data(CHUNKED_HEAD)] + rest
    requires w.clientSends == [Accept(100), Accept(100), Accept(100)]
    ensures HeaderArrives(w) && head == ReadHead(w.originRecvs, "") == Head(CHUNKED_HEAD, rest, false)
    ensures SendAllSpec(CHUNKED_HEAD, w.clientSends).status == Sent && ContentLength(CHUNKED_HEAD).Some?
    ensures framing == FramingOf(REQUEST, CHUNKED_HEAD) && framing.chunked && framing.contentLength == 0
    ensures start == BodyStart(REQUEST, head, SendAllSpec(CHUNKED_HEAD, w.clientSends))
    ensures start.recvs == rest && start.sends == [Accept(100), Accept(100)] && start.phase == Reading
    ensures start.consumed == CHUNKED_HEAD
  {
    ChunkedHeadFacts();
    assert [Accept(100)] + [Accept(100), Accept(100)] == w.clientSends;
    SentAtOnce(CHUNKED_HEAD, 100, [Accept(100), Accept(100)]);
    hide SendAllSpec, ReadHead, LeadingData, ContentLength, Contains, Cacheable, Message, BodyOf;
    HeadInOnePiece(CHUNKED_HEAD, rest);
    head, framing := Head(CHUNKED_HEAD, rest, false), FramingOf(REQUEST, CHUNKED_HEAD);
    start := BodyStart(REQUEST, head, SendAllSpec(CHUNKED_HEAD, w.clientSends));
  }

  lemma AtChunkRun(clock: Clock)
    ensures HeaderArrives(AT_CHUNK)
    ensures var out := Forward(REQUEST, AT_CHUNK, clock);
            out.status == Finished && out.consumed == CHUNKED_HEAD + LAST_CHUNK
  {
    PortParses();
    SentAtOnce(REQUEST.raw, 100, []);
    ChunkedHeadFacts();
    assert [Accept(100)] + [] == AT_CHUNK.originSends;
    var rest := [Data(LAST_CHUNK), Data("X"), Closed];
    assert AT_CHUNK.originRecvs == [Data(CHUNKED_HEAD)] + rest && rest == [Data(LAST_CHUNK)] + [Data("X"), Closed];
    assert EndsWithLastChunk(LAST_CHUNK) && [Accept(100), Accept(100)] == [Accept(100)] + [Accept(100)];
    hide Stoi, Port, SendAllSpec, ReadHead, Forward, BodyRun, BodyStart, FramingOf, ContentLength, Message, Contains,
      EndsWithLastChunk;
    var head, framing, start := ChunkedStart(AT_CHUNK, rest);
    var end := BodyReadsOne(framing, start, LAST_CHUNK, [Data("X"), Closed], [Accept(100)]);
    EndedRun(framing, end);
    RunFinishes(REQUEST, AT_CHUNK, head, framing, start, clock);
  }

  lemma EndedRun(f: Framing, s: Body)
    requires s.phase != Reading
    ensures BodyRun(f, s) == s
  {}

  /** Two reads of the body, neither of which ends with a last chunk, and then the end of the stream. */
  lemma TwoReadsRun(w: World, b1: Chunk, b2: Chunk, clock: Clock)
    requires w.connects && SendAllSpec(REQUEST.raw, w.originSends).status == Sent
    requires w.originRecvs == [Data(CHUNKED_HEAD)] + ([Data(b1)] + ([Data(b2)] + [Closed]))
    requires w.clientSends == [Accept(100), Accept(100), Accept(100)] && |b1| <= 100 && |b2| <= 100
    requires !EndsWithLastChunk(b1) && !EndsWithLastChunk(b2)
    ensures HeaderArrives(w)
    ensures var out := Forward(REQUEST, w, clock);
            out.status == Finished && out.consumed == CHUNKED_HEAD + b1 + b2
  {
    PortParses();
    ChunkedHeadFacts();
    assert [Accept(100), Accept(100)] == [Accept(100)] + [Accept(100)] && [Accept(100)] + [] == [Accept(100)];
    hide Stoi, Port, SendAllSpec, ReadHead, Forward, BodyRun, BodyStart, FramingOf, ContentLength, Message, Contains,
      EndsWithLastChunk;
    var head, framing, start := ChunkedStart(w, [Data(b1)] + ([Data(b2)] + [Closed]));
    var s1 := BodyReadsOne(framing, start, b1, [Data(b2)] + [Closed], [Accept(100)]);
    var s2 := BodyReadsOne(framing, s1, b2, [Closed], []);
    BodyEnds(framing, s2);
    RunFinishes(REQUEST, w, head, framing, start, clock);
  }

  lemma AcrossRun(clock: Clock)
    ensures HeaderArrives(ACROSS)
    ensures var out := Forward(REQUEST, ACROSS, clock);
            out.status == Finished && out.consumed == CHUNKED_HEAD + (LAST_CHUNK + "X")
  {
    SentAtOnce(REQUEST.raw, 100, []);
    var b1, b2 := "0\r\n", "\r\nX";
    assert [Accept(100)] + [] == ACROSS.originSends;
    assert ACROSS.originRecvs == [Data(CHUNKED_HEAD)] + ([Data(b1)] + ([Data(b2)] + [Closed]));
    assert !EndsWithLastChunk(b1) && !EndsWithLastChunk(b2);
    assert b1 + b2 == LAST_CHUNK + "X" && CHUNKED_HEAD + b1 + b2 == CHUNKED_HEAD + (b1 + b2);
    hide *;
    TwoReadsRun(ACROSS, b1, b2, clock);
  }

  lemma SameStream()
    ensures LeadingData(AT_CHUNK.originRecvs) == LeadingData(ACROSS.originRecvs)
  {
    var a, b := AT_CHUNK.originRecvs, ACROSS.originRecvs;
    assert a[1..][1..][1..] == [Closed] == b[1..][1..][1..] && LeadingData([Closed]) == "";
    assert LeadingData(a[1..]) == LAST_CHUNK + ("X" + "") && LeadingData(b[1..]) == "0\r\n" + ("\r\nX" + "");
    assert LAST_CHUNK + ("X" + "") == "0\r\n" + ("\r\nX" + "");
  }

  /** One stream, two cuts: where a read happens to end with the bytes of a last chunk the response is
      relayed and stored up to there, and otherwise whole. */
  lemma CutDecidesTheBody(clock: Clock)
    ensures LeadingData(AT_CHUNK.originRecvs) == LeadingData(ACROSS.originRecvs)
    ensures HeaderArrives(AT_CHUNK) && HeaderArrives(ACROSS)
    ensures var short, long := Forward(REQUEST, AT_CHUNK, clock), Forward(REQUEST, ACROSS, clock);
            && short.status == Finished && long.status == Finished
            && short.stored.Some? && short.stored.value.data == LAST_CHUNK
            && long.stored.Some? && long.stored.value.data == LAST_CHUNK + "X"
  {
    hide *;
    SameStream();
    AtChunkRun(clock);
    AcrossRun(clock);
    Transparent(REQUEST, AT_CHUNK, clock);
    Transparent(REQUEST, ACROSS, clock);
    ChunkedStored(LAST_CHUNK, clock);
    ChunkedStored(LAST_CHUNK + "X", clock);
  }

  // ---------------------------------------------------------------- the tunnel

  /** The client ends its stream while bytes of the server wait to be read: the loop ends normally, no
      delivery has failed, and these bytes are never delivered. */
  lemma TunnelLeavesBytes(client: Tunnel.Side, server: Tunnel.Side, b: Chunk)
    requires client.recvs == [Closed] && server.recvs == [Data(b), Closed]
    ensures var t := Tunnel.Run(Tunnel.Start(client, server), [Tunnel.Ready(true, false, false)]);
            && t.phase == Tunnel.Ended(true) && !t.clientBroken && !t.serverBroken
            && t.client.delivered == client.delivered && Tunnel.Offered(t.server.recvs) == b
  {
    var polls := [Tunnel.Ready(true, false, false)];
    var next := Tunnel.Step(Tunnel.Start(client, server), polls[0]);
    Tunnel.EndedStays(next, polls[1..]);
    assert server.recvs[1..] == [Closed] && [Closed][1..] == [] && b + "" == b;
    assert Tunnel.Offered([Closed]) == "";
  }
}
