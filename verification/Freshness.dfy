/** Freshness and Cache-Control: what the parser's calculation means, and until when an entry made
    from a parsed response is served (sections 4.2, 4.2.1 and 5.2.2 of RFC 7234). */
module Freshness {
  import opened CacheEntries
  import opened Text
  import opened Response
  import opened Relay

  // ---------------------------------------------------------------- the calculation

  /** Section 4.2.1: s-maxage before max-age before Expires minus Date.  A directive that is not
      positive and an Expires at or before the epoch count as absent here, as in the code. */
  function FreshnessLifetime(f: Fields): Option<int> {
    if f.control.sMaxAge > 0 then Some(f.control.sMaxAge)
    else if f.control.maxAge > 0 then Some(f.control.maxAge)
    else if f.expires > 0 then Some(f.expires - f.date)
    else None
  }

  /** Section 4.2.3: the apparent age, which is never negative. */
  function ApparentAge(f: Fields, seconds: int64): int {
    if seconds >= f.date then seconds - f.date else 0
  }

  // ---------------------------------------------------------------- how long an entry is served

  /** The parsed fields and the entry stored from them. */
  ghost predicate StoredAs(head: string, data: string, clock: Clock, f: Fields, e: CacheEntry) {
    && ParseResponse(head, clock.parseTime, clock.parsed) == Some(f)
    && StoreSpec(head, data, clock) == Some(e)
  }

  /** The fields before the time calculation; they determine the parsed ones. */
  lemma ParsedFrom(head: string, clock: Clock, f: Fields) returns (f0: Fields)
    requires ParseResponse(head, clock.parseTime, clock.parsed) == Some(f)
    ensures f == Validate(Manage(f0, Seconds(clock.parsed)))
    ensures f0.control == f.control && f0.date == f.date && f0.headers == f.headers
    ensures ChosenAge(f0) == ChosenAge(f)
    ensures ChosenAge(f) <= 0 ==> f0.expires == f.expires
    ensures HeaderLines(DEFAULTS, AfterStatusLine(head[..Find(head, HEADER_END).value]), clock.parseTime)
            == Some(f0)
  {
    f0 := HeaderLines(DEFAULTS, AfterStatusLine(head[..Find(head, HEADER_END).value]), clock.parseTime).value;
  }

  lemma TicksOf(seconds: int64)
    ensures Fits64(seconds * TICKS_PER_SECOND) ==> FromTimeT(seconds) == seconds * TICKS_PER_SECOND
    ensures seconds > 0 && !Fits64(seconds * TICKS_PER_SECOND) ==>
              seconds * TICKS_PER_SECOND >= TWO_TO_THE_63
  {}

  /** Whether the parser, reading the clock in seconds, finds the response fresh. */
  predicate FreshWhenParsed(f: Fields, seconds: int64) {
    if ChosenAge(f) > 0 then ChosenAge(f) > seconds - f.date
    else f.expires <= 0 || f.expires > seconds
  }

  /** Whether the last Cache-Control value forbids serving without validation. */
  predicate MustValidate(f: Fields) {
    var cc := GetHeader(f, "Cache-Control");
    Contains(cc, "must-revalidate") || Contains(cc, "no-cache")
  }

  lemma ManagedFields(f0: Fields, seconds: int64)
    ensures var f := Validate(Manage(f0, seconds));
            && (ChosenAge(f) > 0 ==> f.expires == Wrap64(f.date + ChosenAge(f)))
            && (f.needValidate <==> !FreshWhenParsed(f, seconds) || MustValidate(f))
            && f.currentAge == Wrap64(seconds - f.date)
  {
    hide Contains, Wrap64;
  }

  lemma ParsedFields(head: string, clock: Clock, f: Fields)
    requires ParseResponse(head, clock.parseTime, clock.parsed) == Some(f)
    ensures ChosenAge(f) > 0 ==> f.expires == Wrap64(f.date + ChosenAge(f))
    ensures f.needValidate <==> !FreshWhenParsed(f, Seconds(clock.parsed)) || MustValidate(f)
    ensures f.currentAge == Wrap64(Seconds(clock.parsed) - f.date)
  {
    hide *;
    var f0 := ParsedFrom(head, clock, f);
    ManagedFields(f0, Seconds(clock.parsed));
  }

  lemma ParsedFreshness(head: string, clock: Clock, f: Fields)
    requires ParseResponse(head, clock.parseTime, clock.parsed) == Some(f)
    ensures f.isFresh <==> FreshWhenParsed(f, Seconds(clock.parsed))
  {
    hide *;
    var f0 := ParsedFrom(head, clock, f);
    ManagedFreshness(f0, Seconds(clock.parsed));
  }

  lemma ManagedFreshness(f0: Fields, seconds: int64)
    ensures Validate(Manage(f0, seconds)).isFresh <==> FreshWhenParsed(Validate(Manage(f0, seconds)), seconds)
  {
    hide Contains, Wrap64;
  }

  /** Section 4.2: a response is fresh exactly while its lifetime exceeds its age.  The parser finds the
      same for every response with a lifetime, except where only Expires counts and lies between the
      clock and a Date in the future: the standard calls that response stale and the code fresh. */
  lemma FreshMatchesStandard(head: string, clock: Clock, f: Fields)
    requires ParseResponse(head, clock.parseTime, clock.parsed) == Some(f)
    ensures var seconds := Seconds(clock.parsed);
            match FreshnessLifetime(f)
            case Some(lifetime) =>
              (f.isFresh <==> lifetime > ApparentAge(f, seconds))
              <==> !(ChosenAge(f) <= 0 && seconds < f.expires <= f.date)
            case None => f.isFresh
  {
    ParsedFreshness(head, clock, f);
    hide ParseResponse, Seconds;
  }

  lemma WrappedSum(date: int64, age: int64, seconds: int64)
    requires age > 0 && seconds >= 0
    ensures (age > seconds - date <==> Wrap64(date + age) > seconds) <==> Fits64(date + age)
  {
    if !Fits64(date + age) {
      assert Wrap64(date + age) == date + age - TWO_TO_THE_64;
    }
  }

  /** The lifetime is the chosen age if there is a positive one, and goes up to Expires otherwise. */
  lemma LifetimeOf(f: Fields, seconds: int64)
    requires FreshnessLifetime(f).Some?
    ensures f.date + FreshnessLifetime(f).value == if ChosenAge(f) > 0 then f.date + ChosenAge(f) else f.expires
    ensures FreshWhenParsed(f, seconds)
            <==> if ChosenAge(f) > 0 then ChosenAge(f) > seconds - f.date else f.expires > seconds
  {}

  lemma InRange(seconds: int64)
    ensures Fits64(seconds)
  {}

  lemma SecondsStart(now: Tick)
    ensures Seconds(now) >= 0
  {}

  /** The expiry time says the same as the flag exactly where Date plus lifetime fits 64 bits. */
  lemma FreshIffUnexpired(head: string, clock: Clock, f: Fields)
    requires ParseResponse(head, clock.parseTime, clock.parsed) == Some(f)
    requires FreshnessLifetime(f).Some?
    ensures (f.isFresh <==> f.expires > Seconds(clock.parsed))
            <==> Fits64(f.date + FreshnessLifetime(f).value)
  {
    hide *;
    var seconds, age := Seconds(clock.parsed), ChosenAge(f);
    ParsedFreshness(head, clock, f);
    ParsedFields(head, clock, f);
    LifetimeOf(f, seconds);
    SecondsStart(clock.parsed);
    if age > 0 {
      WrappedSum(f.date, age, seconds);
    } else {
      InRange(f.expires);
    }
  }

  lemma EntryTimes(head: string, data: string, clock: Clock, f: Fields, e: CacheEntry)
    requires StoredAs(head, data, clock, f, e)
    ensures e.expiresTime == FromTimeT(f.expires) && e.requiresValidation == f.needValidate
  {
    hide ParseResponse, FromTimeT, CopyHeaders;
  }

  /** The two parts of an entry that decide when it is served, in terms of the header it was stored
      from. */
  lemma StoredTimes(head: string, data: string, clock: Clock, f: Fields, e: CacheEntry)
    requires StoredAs(head, data, clock, f, e)
    ensures e.expiresTime
            == FromTimeT(if ChosenAge(f) > 0 then Wrap64(f.date + ChosenAge(f)) else f.expires)
    ensures e.requiresValidation
            <==> !FreshWhenParsed(f, Seconds(clock.parsed)) || MustValidate(f)
    ensures ChosenAge(f) > 0 && !e.requiresValidation ==> f.date + ChosenAge(f) > 0
  {
    EntryTimes(head, data, clock, f, e);
    ParsedFields(head, clock, f);
    assert Seconds(clock.parsed) >= 0;
    hide StoredAs, ParseResponse, MustValidate, Wrap64, FromTimeT, Seconds, ChosenAge;
  }

  /** Ticks and the "no expiry" value together, for a positive expiry time in seconds. */
  lemma ExpiryTicks(expiry: int, now: Tick)
    requires 0 < expiry
    ensures var ticks := FromTimeT(Wrap64(expiry));
            && (ticks == 0 || now <= ticks ==> now <= expiry * TICKS_PER_SECOND)
            && (Fits64(expiry * TICKS_PER_SECOND) ==> ticks == expiry * TICKS_PER_SECOND)
  {
    if expiry < TWO_TO_THE_63 {
      assert Wrap64(expiry) == expiry;
      TicksOf(expiry);
    }
  }

  /** Explicit age: an entry is served no later than Date plus lifetime, for every clock value.  The
      value 0 for "no expiry" and the overflow of 64-bit ticks never extend it. */
  lemma ExplicitAgeBound(head: string, data: string, clock: Clock, f: Fields, e: CacheEntry, now: Tick)
    requires StoredAs(head, data, clock, f, e) && ChosenAge(f) > 0 && !e.IsExpired(now)
    ensures now <= (f.date + ChosenAge(f)) * TICKS_PER_SECOND
  {
    assert !e.requiresValidation && (e.expiresTime == 0 || now <= e.expiresTime);
    hide *;
    StoredTimes(head, data, clock, f, e);
    ExpiryTicks(f.date + ChosenAge(f), now);
  }

  /** Where the ticks do not overflow, this is exact: the entry is served exactly if it was fresh
      when stored, neither `no-cache` nor `must-revalidate` forbids it, and the time has not come. */
  lemma ExplicitAgeExact(head: string, data: string, clock: Clock, f: Fields, e: CacheEntry, now: Tick)
    requires StoredAs(head, data, clock, f, e) && ChosenAge(f) > 0
    requires Fits64((f.date + ChosenAge(f)) * TICKS_PER_SECOND)
    ensures !e.IsExpired(now) <==>
              && ChosenAge(f) > Seconds(clock.parsed) - f.date && !MustValidate(f)
              && now <= (f.date + ChosenAge(f)) * TICKS_PER_SECOND
  {
    assert e.IsExpired(now) <==> e.requiresValidation || (e.expiresTime != 0 && now > e.expiresTime);
    assert FreshWhenParsed(f, Seconds(clock.parsed)) <==> ChosenAge(f) > Seconds(clock.parsed) - f.date;
    hide *;
    StoredTimes(head, data, clock, f, e);
    if !e.requiresValidation {
      ExpiryTicks(f.date + ChosenAge(f), now);
    }
  }

  /** The last tick of the clock is no whole second. */
  lemma ExpiryBeforeTheEnd(seconds: int64)
    ensures FromTimeT(seconds) < TWO_TO_THE_63 - 1
  {
    var x := seconds * TICKS_PER_SECOND + TWO_TO_THE_63;
    assert x == 2 * (seconds * (TICKS_PER_SECOND / 2) + TWO_TO_THE_63 / 2);
    assert x % TWO_TO_THE_64 == x - TWO_TO_THE_64 * (x / TWO_TO_THE_64);
  }

  /** An entry is served at every time exactly if its expiry comes out as the value for "no expiry",
      it was fresh when stored, and Cache-Control does not forbid it. */
  lemma ServedForever(head: string, data: string, clock: Clock, f: Fields, e: CacheEntry)
    requires StoredAs(head, data, clock, f, e)
    ensures (forall now: Tick :: !e.IsExpired(now)) <==>
              && FromTimeT(if ChosenAge(f) > 0 then Wrap64(f.date + ChosenAge(f)) else f.expires) == 0
              && FreshWhenParsed(f, Seconds(clock.parsed)) && !MustValidate(f)
  {
    var expiry: int64 := if ChosenAge(f) > 0 then Wrap64(f.date + ChosenAge(f)) else f.expires;
    StoredTimes(head, data, clock, f, e);
    ExpiryBeforeTheEnd(expiry);
    hide FromTimeT, FreshWhenParsed, MustValidate, StoredAs, ChosenAge, Wrap64;
    var last: Tick := TWO_TO_THE_63 - 1;
    assert e.expiresTime != 0 ==> e.IsExpired(last);
    assert e.requiresValidation ==> e.IsExpired(last);
  }

  /** In particular a response with no positive age and no Expires, `max-age=0` included, is served
      for ever exactly if Cache-Control does not forbid it. */
  lemma NoLifetimeServedForever(head: string, data: string, clock: Clock, f: Fields, e: CacheEntry)
    requires StoredAs(head, data, clock, f, e) && ChosenAge(f) <= 0 && f.expires == 0
    ensures (forall now: Tick :: !e.IsExpired(now)) <==> !MustValidate(f)
  {
    ServedForever(head, data, clock, f, e);
    assert FromTimeT(0) == 0;
    hide StoredAs, MustValidate;
  }

  /** No positive age but an Expires other than the epoch: the entry is served no later than Expires
      exactly if Expires is positive, Cache-Control forbids serving it anyway, or the ticks of Expires
      stay negative in 64 bits. */
  lemma ExpiresBound(head: string, data: string, clock: Clock, f: Fields, e: CacheEntry)
    requires StoredAs(head, data, clock, f, e) && ChosenAge(f) <= 0 && f.expires != 0
    ensures (forall now: Tick :: !e.IsExpired(now) ==> now <= f.expires * TICKS_PER_SECOND)
            <==> f.expires > 0 || MustValidate(f) || FromTimeT(f.expires) < 0
  {
    StoredTimes(head, data, clock, f, e);
    TicksOf(f.expires);
    hide MustValidate, StoredAs, ChosenAge;
    if f.expires < 0 && !e.requiresValidation && FromTimeT(f.expires) >= 0 {
      assert !e.IsExpired(0);
    }
  }

  /** In particular for every date that 64-bit ticks can hold, the unparsable ones included. */
  lemma ExpiresBoundInRange(head: string, data: string, clock: Clock, f: Fields, e: CacheEntry, now: Tick)
    requires StoredAs(head, data, clock, f, e) && ChosenAge(f) <= 0 && f.expires != 0
    requires Fits64(f.expires * TICKS_PER_SECOND) && !e.IsExpired(now)
    ensures now <= f.expires * TICKS_PER_SECOND
  {
    TicksOf(f.expires);
    ExpiresBound(head, data, clock, f, e);
  }

  /** Expiry is for good: an entry found expired is found expired at any later time. */
  lemma ExpiredStaysExpired(e: CacheEntry, now: Tick, later: Tick)
    requires e.IsExpired(now) && now <= later
    ensures e.IsExpired(later)
  {}

  // ---------------------------------------------------------------- directives

  /** The flags are those of the Cache-Control value in the header map. */
  ghost predicate ControlsAgree(f: Fields) {
    var cc, c := GetHeader(f, "Cache-Control"), f.control;
    && c.noStore == Contains(cc, "no-store") && c.isPrivate == Contains(cc, "private")
    && c.noCache == Contains(cc, "no-cache") && c.revalidate == Contains(cc, "must-revalidate")
    && f.values.cacheControl == cc
  }

  ghost predicate TextsAgree(f: Fields) {
    f.values.contentType == GetHeader(f, "Content-Type") && f.values.etag == GetHeader(f, "ETag")
  }

  ghost predicate NumbersAgree(f: Fields, parseTime: DateParser) {
    && (if "Content-Length" in f.headers then Stoi(f.headers["Content-Length"]) == Some(f.values.contentLength)
        else f.values.contentLength == -1)
    && f.values.lastModified == (if "Last-Modified" in f.headers then parseTime(f.headers["Last-Modified"]) else 0)
  }

  /** What every header line keeps: the fields that describe a header agree with the header map, which has
      the last value of each name. */
  ghost predicate AgreesWithHeaders(f: Fields, parseTime: DateParser) {
    ControlsAgree(f) && TextsAgree(f) && NumbersAgree(f, parseTime)
  }

  lemma InitiallyAgree(parseTime: DateParser)
    ensures AgreesWithHeaders(DEFAULTS, parseTime)
  {
    assert GetHeader(DEFAULTS, "Cache-Control") == "";
    assert !Contains("", "no-store") && !Contains("", "private");
    assert !Contains("", "no-cache") && !Contains("", "must-revalidate");
  }

  /** What one header does to the flags. */
  lemma HeaderControls(f: Fields, key: string, value: string, parseTime: DateParser)
    requires Header(f, key, value, parseTime).Some?
    ensures var g := Header(f, key, value, parseTime).value;
            && g.headers == f.headers[key := value]
            && if key == "Cache-Control" then
                 CacheControl(f.control, value) == Some(g.control) && g.values.cacheControl == value
               else g.control == f.control && g.values.cacheControl == f.values.cacheControl
  {
    hide CacheControl, Stoi;
  }

  lemma ControlsAgreeAfter(f: Fields, key: string, value: string, parseTime: DateParser)
    requires ControlsAgree(f) && Header(f, key, value, parseTime).Some?
    ensures ControlsAgree(Header(f, key, value, parseTime).value)
  {
    HeaderControls(f, key, value, parseTime);
    hide Header, Contains, WithAge;
  }

  /** What one header does to the plain values. */
  lemma HeaderTexts(f: Fields, key: string, value: string, parseTime: DateParser)
    requires Header(f, key, value, parseTime).Some?
    ensures var g := Header(f, key, value, parseTime).value;
            && g.values.contentType == (if key == "Content-Type" then value else f.values.contentType)
            && g.values.etag == (if key == "ETag" then value else f.values.etag)
  {
    hide CacheControl, Stoi;
  }

  lemma TextsAgreeAfter(f: Fields, key: string, value: string, parseTime: DateParser)
    requires TextsAgree(f) && Header(f, key, value, parseTime).Some?
    ensures TextsAgree(Header(f, key, value, parseTime).value)
  {
    HeaderTexts(f, key, value, parseTime);
    HeaderSets(f, key, value, parseTime);
    hide Header;
  }

  lemma HeaderNumbers(f: Fields, key: string, value: string, parseTime: DateParser)
    requires Header(f, key, value, parseTime).Some?
    ensures var g := Header(f, key, value, parseTime).value;
            && (if key == "Content-Length" then Stoi(value) == Some(g.values.contentLength)
                else g.values.contentLength == f.values.contentLength)
            && g.values.lastModified == (if key == "Last-Modified" then parseTime(value) else f.values.lastModified)
  {
    hide CacheControl, Stoi;
  }

  lemma NumbersAgreeAfter(f: Fields, key: string, value: string, parseTime: DateParser)
    requires NumbersAgree(f, parseTime) && Header(f, key, value, parseTime).Some?
    ensures NumbersAgree(Header(f, key, value, parseTime).value, parseTime)
  {
    HeaderNumbers(f, key, value, parseTime);
    HeaderSets(f, key, value, parseTime);
    hide Header, Stoi;
  }

  lemma AgreeAfterHeader(f: Fields, key: string, value: string, parseTime: DateParser)
    requires AgreesWithHeaders(f, parseTime) && Header(f, key, value, parseTime).Some?
    ensures AgreesWithHeaders(Header(f, key, value, parseTime).value, parseTime)
  {
    hide Header, ControlsAgree, TextsAgree, NumbersAgree;
    ControlsAgreeAfter(f, key, value, parseTime);
    TextsAgreeAfter(f, key, value, parseTime);
    NumbersAgreeAfter(f, key, value, parseTime);
  }

  lemma AgreeAfterLine(f: Fields, line: string, parseTime: DateParser)
    requires AgreesWithHeaders(f, parseTime) && HeaderLine(f, line, parseTime).Some?
    ensures AgreesWithHeaders(HeaderLine(f, line, parseTime).value, parseTime)
  {
    hide AgreesWithHeaders, Header;
    var colon := Find(line, ": ");
    if colon.Some? {
      AgreeAfterHeader(f, line[..colon.value], line[colon.value + 2..], parseTime);
    }
  }

  lemma {:induction false} AgreeThroughout(f: Fields, text: string, parseTime: DateParser)
    requires AgreesWithHeaders(f, parseTime) && HeaderLines(f, text, parseTime).Some?
    ensures AgreesWithHeaders(HeaderLines(f, text, parseTime).value, parseTime)
    decreases |text|
  {
    if text != "" {
      var (line, rest) := NextLine(text);
      if line != "" {
        AgreeAfterLine(f, line, parseTime);
        hide AgreesWithHeaders, HeaderLine;
        AgreeThroughout(HeaderLine(f, line, parseTime).value, rest, parseTime);
      }
    }
  }

  lemma {:induction false} CopiedHeaders(names: seq<string>, f: Fields)
    ensures var h := CopyHeaders(names, f);
            && (forall k :: k in h <==> k in names && GetHeader(f, k) != "")
            && (forall k :: k in h ==> h[k] == GetHeader(f, k))
  {
    if names != [] {
      CopiedHeaders(names[..|names| - 1], f);
      assert names == names[..|names| - 1] + [names[|names| - 1]];
    }
  }

  function CacheControlOf(e: CacheEntry): string {
    if "Cache-Control" in e.headers then e.headers["Cache-Control"] else ""
  }

  /** No stored entry carries a Cache-Control value with `no-store`; one with `no-cache` or
      `must-revalidate` is marked so that it is never served without validation.  This holds for
      every header sequence, repeated Cache-Control lines included. */
  lemma StoredDirectives(head: string, data: string, clock: Clock, e: CacheEntry)
    requires StoreSpec(head, data, clock) == Some(e)
    ensures !Contains(CacheControlOf(e), "no-store")
    ensures (Contains(CacheControlOf(e), "no-cache") || Contains(CacheControlOf(e), "must-revalidate"))
            ==> e.requiresValidation
  {
    var f := ParseResponse(head, clock.parseTime, clock.parsed).value;
    var f0 := ParsedFrom(head, clock, f);
    var text := AfterStatusLine(head[..Find(head, HEADER_END).value]);
    InitiallyAgree(clock.parseTime);
    AgreeThroughout(DEFAULTS, text, clock.parseTime);
    CopiedHeaders(STORED_HEADERS, f);
    assert STORED_HEADERS[5] == "Cache-Control";
    assert CacheControlOf(e) == GetHeader(f, "Cache-Control");
  }

  /** The value that a line gives to a name, if it does. */
  function ValueIn(line: string, key: string): seq<string> {
    match Find(line, ": ")
    case None => []
    case Some(colon) => if line[..colon] == key then [line[colon + 2..]] else []
  }

  /** The values of all header lines with this name, in order, as `getline` cuts the lines. */
  function ValuesOf(text: string, key: string): seq<string>
    decreases |text|
  {
    if text == "" then []
    else
      var (line, rest) := NextLine(text);
      if line == "" then [] else ValueIn(line, key) + ValuesOf(rest, key)
  }

  function LastOf(values: seq<string>, before: string): string {
    if values == [] then before else values[|values| - 1]
  }

  lemma HeaderSets(f: Fields, key: string, value: string, parseTime: DateParser)
    requires Header(f, key, value, parseTime).Some?
    ensures Header(f, key, value, parseTime).value.headers == f.headers[key := value]
  {
    hide CacheControl, Stoi;
  }

  /** The header lines of a response, without the status line. */
  function LinesOf(head: string): string {
    match Find(head, HEADER_END)
    case None => ""
    case Some(end) => AfterStatusLine(head[..end])
  }

  // ---------------------------------------------------------------- the fields, from the text

  /** `n` is the number behind the directive in the last of the values that has it, or `before` if none
      has it. */
  ghost predicate IsLastNumber(values: seq<string>, directive: string, before: int, n: int) {
    || (n == before && forall v :: v in values ==> Find(v, directive) == None)
    || exists i :: 0 <= i < |values| && NumberBehind(values[i], directive, n)
                   && forall j :: i < j < |values| ==> Find(values[j], directive) == None
  }

  predicate NumberBehind(value: string, directive: string, n: int) {
    match Find(value, directive)
    case None => false
    case Some(pos) => ParseInt(value[pos + |directive|..], -TWO_TO_THE_63, TWO_TO_THE_63) == Some(n)
  }

  function LastDate(values: seq<string>, before: int64, parseTime: DateParser): int64 {
    if values == [] then before else parseTime(values[|values| - 1])
  }

  /** The fields of the parser against the values of the header lines, from the fields `f0` on. */
  ghost predicate FieldsFrom(f0: Fields, text: string, parseTime: DateParser, f: Fields) {
    var controls := ValuesOf(text, "Cache-Control");
    && IsLastNumber(controls, "s-maxage=", f0.control.sMaxAge, f.control.sMaxAge)
    && IsLastNumber(controls, "max-age=", f0.control.maxAge, f.control.maxAge)
    && f.date == LastDate(ValuesOf(text, "Date"), f0.date, parseTime)
    && f.expires == LastDate(ValuesOf(text, "Expires"), f0.expires, parseTime)
    && (f.values.chunked <==> f0.values.chunked || "chunked" in ValuesOf(text, "Transfer-Encoding"))
    && forall key :: GetHeader(f, key) == LastOf(ValuesOf(text, key), GetHeader(f0, key))
  }

  lemma LastNumberCons(v: string, values: seq<string>, directive: string, before: int, middle: int, n: int)
    requires if Find(v, directive) == None then middle == before else NumberBehind(v, directive, middle)
    requires IsLastNumber(values, directive, middle, n)
    ensures IsLastNumber([v] + values, directive, before, n)
  {
    hide NumberBehind, Find;
    var all := [v] + values;
    assert forall j :: 0 < j < |all| ==> all[j] == values[j - 1];
    if i :| 0 <= i < |values| && NumberBehind(values[i], directive, n)
            && forall j :: i < j < |values| ==> Find(values[j], directive) == None {
      assert NumberBehind(all[i + 1], directive, n);
    } else {
      assert n == middle;
      assert forall j :: 0 < j < |all| ==> all[j] in values;
      if Find(v, directive) != None {
        assert NumberBehind(all[0], directive, n);
      }
    }
  }

  lemma AgeBehind(before: int64, value: string, directive: string)
    requires WithAge(before, value, directive).Some?
    ensures if Find(value, directive) == None then WithAge(before, value, directive) == Some(before)
            else NumberBehind(value, directive, WithAge(before, value, directive).value)
  {
    hide ParseInt, Find;
  }

  /** What one header line does to the fields in question. */
  lemma HeaderStep(f: Fields, key: string, value: string, parseTime: DateParser)
    requires Header(f, key, value, parseTime).Some?
    ensures var g := Header(f, key, value, parseTime).value;
            && g.date == (if key == "Date" then parseTime(value) else f.date)
            && g.expires == (if key == "Expires" then parseTime(value) else f.expires)
            && g.values.chunked == (f.values.chunked || (key == "Transfer-Encoding" && value == "chunked"))
            && g.headers == f.headers[key := value]
            && (if key == "Cache-Control" then
                  && WithAge(f.control.sMaxAge, value, "s-maxage=") == Some(g.control.sMaxAge)
                  && WithAge(f.control.maxAge, value, "max-age=") == Some(g.control.maxAge)
                else g.control == f.control)
  {
    hide WithAge, Contains, Stoi;
  }

  lemma ValuesStep(text: string, line: string, rest: string, key: string)
    requires text != "" && NextLine(text) == (line, rest) && line != ""
    ensures ValuesOf(text, key) == ValueIn(line, key) + ValuesOf(rest, key)
  {}

  lemma LastCons(v: string, values: seq<string>, before: string, seconds: int64, parseTime: DateParser)
    ensures LastOf([v] + values, before) == LastOf(values, v)
    ensures LastDate([v] + values, seconds, parseTime) == LastDate(values, parseTime(v), parseTime)
  {}

  /** The value that a header gives to a name, if it does. */
  function Given(name: string, value: string, key: string): seq<string> {
    if name == key then [value] else []
  }

  /** The effect of one header on the header map, the entity tag and the dates, against what it gives. */
  lemma HeaderGives(
    f: Fields, name: string, value: string, parseTime: DateParser, key: string, values: seq<string>)
    requires Header(f, name, value, parseTime).Some?
    ensures var g := Header(f, name, value, parseTime).value;
            && LastOf(Given(name, value, key) + values, GetHeader(f, key)) == LastOf(values, GetHeader(g, key))
            && (f.values.chunked || "chunked" in Given(name, value, "Transfer-Encoding") + values
                <==> g.values.chunked || "chunked" in values)
            && LastDate(Given(name, value, "Date") + values, f.date, parseTime)
               == LastDate(values, g.date, parseTime)
            && LastDate(Given(name, value, "Expires") + values, f.expires, parseTime)
               == LastDate(values, g.expires, parseTime)
  {
    assert [] + values == values;
    HeaderStep(f, name, value, parseTime);
    LastCons(value, values, GetHeader(f, key), f.date, parseTime);
    LastCons(value, values, "", f.expires, parseTime);
    hide Header, LastOf, LastDate;
  }

  /** The same for the ages. */
  lemma HeaderGivesAge(
    f: Fields, name: string, value: string, parseTime: DateParser, values: seq<string>, s: int, m: int)
    requires Header(f, name, value, parseTime).Some?
    requires var g := Header(f, name, value, parseTime).value;
             && IsLastNumber(values, "s-maxage=", g.control.sMaxAge, s)
             && IsLastNumber(values, "max-age=", g.control.maxAge, m)
    ensures IsLastNumber(Given(name, value, "Cache-Control") + values, "s-maxage=", f.control.sMaxAge, s)
    ensures IsLastNumber(Given(name, value, "Cache-Control") + values, "max-age=", f.control.maxAge, m)
  {
    assert [] + values == values;
    HeaderStep(f, name, value, parseTime);
    var g := Header(f, name, value, parseTime).value;
    hide IsLastNumber, Header, WithAge, NumberBehind;
    if name == "Cache-Control" {
      AgeBehind(f.control.sMaxAge, value, "s-maxage=");
      AgeBehind(f.control.maxAge, value, "max-age=");
      LastNumberCons(value, values, "s-maxage=", f.control.sMaxAge, g.control.sMaxAge, s);
      LastNumberCons(value, values, "max-age=", f.control.maxAge, g.control.maxAge, m);
    }
  }

  /** A line is a header, or changes nothing and gives nothing. */
  lemma LineIsHeader(f: Fields, line: string, parseTime: DateParser) returns (h: Option<(string, string)>)
    ensures h.None? ==> HeaderLine(f, line, parseTime) == Some(f) && forall key :: ValueIn(line, key) == []
    ensures h.Some? ==>
              && HeaderLine(f, line, parseTime) == Header(f, h.value.0, h.value.1, parseTime)
              && forall key :: ValueIn(line, key) == Given(h.value.0, h.value.1, key)
  {
    hide Header;
    var colon := Find(line, ": ");
    h := if colon.None? then None else Some((line[..colon.value], line[colon.value + 2..]));
  }

  lemma LineGives(f: Fields, line: string, parseTime: DateParser, key: string, values: seq<string>)
    requires HeaderLine(f, line, parseTime).Some?
    ensures var f1 := HeaderLine(f, line, parseTime).value;
            && LastOf(ValueIn(line, key) + values, GetHeader(f, key)) == LastOf(values, GetHeader(f1, key))
            && (f.values.chunked || "chunked" in ValueIn(line, "Transfer-Encoding") + values
                <==> f1.values.chunked || "chunked" in values)
            && LastDate(ValueIn(line, "Date") + values, f.date, parseTime) == LastDate(values, f1.date, parseTime)
            && LastDate(ValueIn(line, "Expires") + values, f.expires, parseTime)
               == LastDate(values, f1.expires, parseTime)
  {
    var h := LineIsHeader(f, line, parseTime);
    hide *;
    if h.Some? {
      HeaderGives(f, h.value.0, h.value.1, parseTime, key, values);
    } else {
      assert [] + values == values;
    }
  }

  lemma LineGivesAge(f: Fields, line: string, parseTime: DateParser, values: seq<string>, s: int, m: int)
    requires HeaderLine(f, line, parseTime).Some?
    requires var f1 := HeaderLine(f, line, parseTime).value;
             && IsLastNumber(values, "s-maxage=", f1.control.sMaxAge, s)
             && IsLastNumber(values, "max-age=", f1.control.maxAge, m)
    ensures IsLastNumber(ValueIn(line, "Cache-Control") + values, "s-maxage=", f.control.sMaxAge, s)
    ensures IsLastNumber(ValueIn(line, "Cache-Control") + values, "max-age=", f.control.maxAge, m)
  {
    hide *;
    var h := LineIsHeader(f, line, parseTime);
    if h.Some? {
      HeaderGivesAge(f, h.value.0, h.value.1, parseTime, values, s, m);
    } else {
      assert [] + values == values;
    }
  }

  lemma FieldsFromStep(f: Fields, line: string, rest: string, text: string, parseTime: DateParser, g: Fields)
    requires text != "" && NextLine(text) == (line, rest) && line != ""
    requires HeaderLine(f, line, parseTime).Some? && FieldsFrom(HeaderLine(f, line, parseTime).value, rest, parseTime, g)
    ensures FieldsFrom(f, text, parseTime, g)
  {
    hide IsLastNumber, HeaderLine, NextLine, LastOf, LastDate, ValueIn, ValuesOf, GetHeader;
    forall key: string ensures GetHeader(g, key) == LastOf(ValuesOf(text, key), GetHeader(f, key)) {
      ValuesStep(text, line, rest, key);
      LineGives(f, line, parseTime, key, ValuesOf(rest, key));
    }
    ValuesStep(text, line, rest, "Date");
    LineGives(f, line, parseTime, "", ValuesOf(rest, "Date"));
    ValuesStep(text, line, rest, "Expires");
    LineGives(f, line, parseTime, "", ValuesOf(rest, "Expires"));
    ValuesStep(text, line, rest, "Transfer-Encoding");
    LineGives(f, line, parseTime, "", ValuesOf(rest, "Transfer-Encoding"));
    ValuesStep(text, line, rest, "Cache-Control");
    LineGivesAge(f, line, parseTime, ValuesOf(rest, "Cache-Control"), g.control.sMaxAge, g.control.maxAge);
  }

  lemma {:induction false} FieldsRead(f: Fields, text: string, parseTime: DateParser)
    requires HeaderLines(f, text, parseTime).Some?
    ensures FieldsFrom(f, text, parseTime, HeaderLines(f, text, parseTime).value)
    decreases |text|
  {
    if text != "" && NextLine(text).0 != "" {
      var (line, rest) := NextLine(text);
      var f1 := HeaderLine(f, line, parseTime).value;
      hide FieldsFrom, HeaderLine, NextLine;
      FieldsRead(f1, rest, parseTime);
      FieldsFromStep(f, line, rest, text, parseTime, HeaderLines(f1, rest, parseTime).value);
    }
  }

  /** The fields in terms of the header lines: each age is the number behind its directive in the last
      Cache-Control line that has one, each date is that of the last line of its name, and every header
      has the value of its last line. */
  ghost predicate FromText(text: string, parseTime: DateParser, f: Fields) {
    var controls := ValuesOf(text, "Cache-Control");
    && IsLastNumber(controls, "s-maxage=", -1, f.control.sMaxAge)
    && IsLastNumber(controls, "max-age=", -1, f.control.maxAge)
    && f.date == LastDate(ValuesOf(text, "Date"), 0, parseTime)
    && (ChosenAge(f) <= 0 ==> f.expires == LastDate(ValuesOf(text, "Expires"), 0, parseTime))
    && (f.values.chunked <==> "chunked" in ValuesOf(text, "Transfer-Encoding"))
    && AgreesWithHeaders(f, parseTime)
    && forall key :: GetHeader(f, key) == LastOf(ValuesOf(text, key), "")
  }

  /** For every response that parses the fields are those of its text. */
  lemma FieldsFromText(head: string, clock: Clock, f: Fields)
    requires ParseResponse(head, clock.parseTime, clock.parsed) == Some(f)
    ensures FromText(LinesOf(head), clock.parseTime, f)
  {
    var f0 := HeaderLines(DEFAULTS, LinesOf(head), clock.parseTime).value;
    FieldsRead(DEFAULTS, LinesOf(head), clock.parseTime);
    assert f == Validate(Manage(f0, Seconds(clock.parsed)));
    InitiallyAgree(clock.parseTime);
    AgreeThroughout(DEFAULTS, LinesOf(head), clock.parseTime);
    hide *;
    ManagedFromText(LinesOf(head), clock.parseTime, f0, Seconds(clock.parsed));
  }

  lemma ManagedFromText(text: string, parseTime: DateParser, f0: Fields, seconds: int64)
    requires FieldsFrom(DEFAULTS, text, parseTime, f0) && AgreesWithHeaders(f0, parseTime)
    ensures FromText(text, parseTime, Validate(Manage(f0, seconds)))
  {
    hide IsLastNumber, LastOf, LastDate, ValuesOf, Contains, Wrap64;
    assert forall key :: GetHeader(DEFAULTS, key) == "";
    var f := Validate(Manage(f0, seconds));
    assert f.headers == f0.headers && f.control == f0.control && f.values == f0.values && f.date == f0.date;
    forall key ensures GetHeader(f, key) == LastOf(ValuesOf(text, key), "") {
      assert GetHeader(f0, key) == LastOf(ValuesOf(text, key), GetHeader(DEFAULTS, key));
    }
  }

  // ---------------------------------------------------------------- which responses parse

  /** Either the value does not have the directive or there is a number behind it. */
  predicate AgeParses(value: string, directive: string) {
    match Find(value, directive)
    case None => true
    case Some(pos) => ParseInt(value[pos + |directive|..], -TWO_TO_THE_63, TWO_TO_THE_63).Some?
  }

  /** Every Content-Length value is a number, and every age in a Cache-Control value. */
  ghost predicate NumbersIn(lengths: seq<string>, controls: seq<string>) {
    && (forall v :: v in lengths ==> ParseInt(v, -0x8000_0000, 0x8000_0000).Some?)
    && (forall v :: v in controls ==> AgeParses(v, "s-maxage=") && AgeParses(v, "max-age="))
  }

  ghost predicate EveryNumberParses(text: string) {
    NumbersIn(ValuesOf(text, "Content-Length"), ValuesOf(text, "Cache-Control"))
  }

  lemma NumbersTogether(a: seq<string>, b: seq<string>, c: seq<string>, d: seq<string>)
    ensures NumbersIn(a + b, c + d) <==> NumbersIn(a, c) && NumbersIn(b, d)
  {
    hide AgeParses, ParseInt;
    assert forall v :: v in a + b <==> v in a || v in b;
    assert forall v :: v in c + d <==> v in c || v in d;
  }

  lemma HeaderParses(f: Fields, key: string, value: string, parseTime: DateParser)
    ensures Header(f, key, value, parseTime).Some? <==>
              if key == "Content-Length" then ParseInt(value, -0x8000_0000, 0x8000_0000).Some?
              else key == "Cache-Control" ==> AgeParses(value, "s-maxage=") && AgeParses(value, "max-age=")
  {
    hide Find, ParseInt, Contains;
  }

  lemma GivenParses(f: Fields, key: string, value: string, parseTime: DateParser)
    ensures Header(f, key, value, parseTime).Some?
            <==> NumbersIn(Given(key, value, "Content-Length"), Given(key, value, "Cache-Control"))
  {
    HeaderParses(f, key, value, parseTime);
    hide Header, AgeParses, ParseInt;
    assert "Content-Length" != "Cache-Control";
    assert value in [value];
  }

  lemma LineParses(f: Fields, line: string, parseTime: DateParser)
    ensures HeaderLine(f, line, parseTime).Some?
            <==> NumbersIn(ValueIn(line, "Content-Length"), ValueIn(line, "Cache-Control"))
  {
    assert NumbersIn([], []);
    hide *;
    var h := LineIsHeader(f, line, parseTime);
    if h.Some? {
      GivenParses(f, h.value.0, h.value.1, parseTime);
    } else {
      assert ValueIn(line, "Content-Length") == [] && ValueIn(line, "Cache-Control") == [];
    }
  }

  lemma {:induction false} LinesParse(f: Fields, text: string, parseTime: DateParser)
    ensures HeaderLines(f, text, parseTime).Some? <==> EveryNumberParses(text)
    decreases |text|
  {
    if text != "" && NextLine(text).0 != "" {
      var (line, rest) := NextLine(text);
      ValuesStep(text, line, rest, "Content-Length");
      ValuesStep(text, line, rest, "Cache-Control");
      LineParses(f, line, parseTime);
      NumbersTogether(ValueIn(line, "Content-Length"), ValuesOf(rest, "Content-Length"),
                      ValueIn(line, "Cache-Control"), ValuesOf(rest, "Cache-Control"));
      hide HeaderLine, NextLine, ValuesOf, ValueIn, NumbersIn;
      if HeaderLine(f, line, parseTime).Some? {
        LinesParse(HeaderLine(f, line, parseTime).value, rest, parseTime);
      }
    }
  }

  /** Exactly which responses parse: those with a header end in which every number is one. */
  lemma ParsesExactly(head: string, clock: Clock)
    ensures ParseResponse(head, clock.parseTime, clock.parsed).Some?
            <==> Contains(head, "\r\n\r\n") && EveryNumberParses(LinesOf(head))
  {
    if Contains(head, "\r\n\r\n") {
      LinesParse(DEFAULTS, LinesOf(head), clock.parseTime);
    }
    hide HeaderLines, EveryNumberParses, AfterStatusLine;
  }

  /** Exactly which responses are stored: those that parse and whose last Cache-Control line does not
      contain `no-store`.  A `no-store` in an earlier Cache-Control line has no effect. */
  lemma StoredUnlessLastForbids(head: string, data: string, clock: Clock)
    ensures StoreSpec(head, data, clock).Some? <==>
              && Contains(head, "\r\n\r\n") && EveryNumberParses(LinesOf(head))
              && !Contains(LastOf(ValuesOf(LinesOf(head), "Cache-Control"), ""), "no-store")
  {
    ParsesExactly(head, clock);
    hide EveryNumberParses;
    if ParseResponse(head, clock.parseTime, clock.parsed).Some? {
      var f := ParseResponse(head, clock.parseTime, clock.parsed).value;
      FieldsFromText(head, clock, f);
      hide ParseResponse, LastOf, Contains, EntryOf, ResponseLine, FromText;
      ValuesFromText(LinesOf(head), clock.parseTime, f);
    }
  }

  lemma LastNumberUnique(values: seq<string>, directive: string, before: int, n1: int, n2: int)
    requires IsLastNumber(values, directive, before, n1) && IsLastNumber(values, directive, before, n2)
    ensures n1 == n2
  {
    hide ParseInt, Find;
    assert forall v, n: int :: NumberBehind(v, directive, n) ==> Find(v, directive) != None;
    assert forall i :: 0 <= i < |values| ==> values[i] in values;
  }

  /** Until when a stored response is served, from its text: no later than Date plus a positive s-maxage,
      else Date plus a positive max-age, else Expires (see `ExpiresBound` for the condition on its ticks). */
  lemma ServedUntil(head: string, data: string, clock: Clock, e: CacheEntry, now: Tick, s: int, m: int)
    requires StoreSpec(head, data, clock) == Some(e) && !e.IsExpired(now)
    requires IsLastNumber(ValuesOf(LinesOf(head), "Cache-Control"), "s-maxage=", -1, s)
    requires IsLastNumber(ValuesOf(LinesOf(head), "Cache-Control"), "max-age=", -1, m)
    ensures var date := LastDate(ValuesOf(LinesOf(head), "Date"), 0, clock.parseTime);
            var expires := LastDate(ValuesOf(LinesOf(head), "Expires"), 0, clock.parseTime);
            && (s > 0 ==> now <= (date + s) * 1_000_000_000)
            && (s <= 0 && m > 0 ==> now <= (date + m) * 1_000_000_000)
            && (s <= 0 && m <= 0 && (expires > 0 || FromTimeT(expires) < 0) ==> now <= expires * 1_000_000_000)
  {
    var f := ParseResponse(head, clock.parseTime, clock.parsed).value;
    assert StoredAs(head, data, clock, f, e) && FromTimeT(0) == 0;
    FieldsFromText(head, clock, f);
    hide StoredAs, ParseResponse, StoreSpec, IsLastNumber, LastDate, ValuesOf, LinesOf, FromTimeT, Contains, LastOf,
      MustValidate;
    var controls := ValuesOf(LinesOf(head), "Cache-Control");
    LastNumberUnique(controls, "s-maxage=", -1, s, f.control.sMaxAge);
    LastNumberUnique(controls, "max-age=", -1, m, f.control.maxAge);
    if ChosenAge(f) > 0 {
      ExplicitAgeBound(head, data, clock, f, e, now);
    } else if f.expires > 0 || FromTimeT(f.expires) < 0 {
      ExpiresBound(head, data, clock, f, e);
    }
  }

  /** The headers that an entry keeps. */
  predicate IsStoredName(k: string) {
    k in {"Content-Type", "Content-Length", "ETag", "Last-Modified", "Expires", "Cache-Control", "Date"}
  }

  /** The parts of a stored entry that are copied, from the text: the status line up to the first line end,
      the listed headers and validators with the values of their last lines. */
  lemma EntryFromText(head: string, data: string, clock: Clock, e: CacheEntry)
    requires StoreSpec(head, data, clock) == Some(e)
    ensures var lines, n := LinesOf(head), |e.responseLine|;
            && e.data == data && e.creationTime == clock.created
            && e.responseLine <= head && At(head, "\r\n", n) && (forall i: nat :: i < n ==> !At(head, "\r\n", i))
            && e.etag == LastOf(ValuesOf(lines, "ETag"), "")
            && e.lastModified == LastOf(ValuesOf(lines, "Last-Modified"), "")
            && (forall k :: k in e.headers <==>
                  && IsStoredName(k)
                  && LastOf(ValuesOf(lines, k), "") != "")
            && (forall k :: k in e.headers ==> e.headers[k] == LastOf(ValuesOf(lines, k), ""))
  {
    hide *;
    var f := EntryFromFields(head, data, clock, e);
    FieldsFromText(head, clock, f);
    ValuesFromText(LinesOf(head), clock.parseTime, f);
    HeadersFromText(LinesOf(head), f);
    StatusLineCut(head);
  }

  lemma ValuesFromText(text: string, parseTime: DateParser, f: Fields)
    requires FromText(text, parseTime, f)
    ensures f.values.etag == LastOf(ValuesOf(text, "ETag"), "")
    ensures f.control.noStore == Contains(LastOf(ValuesOf(text, "Cache-Control"), ""), "no-store")
    ensures forall key :: GetHeader(f, key) == LastOf(ValuesOf(text, key), "")
  {
    hide Contains, NumbersAgree, IsLastNumber, LastOf, ValuesOf, GetHeader, LastDate;
  }

  lemma EntryFromFields(head: string, data: string, clock: Clock, e: CacheEntry) returns (f: Fields)
    requires StoreSpec(head, data, clock) == Some(e)
    ensures ParseResponse(head, clock.parseTime, clock.parsed) == Some(f) && Contains(head, HEADER_END)
    ensures e.data == data && e.creationTime == clock.created && e.responseLine == ResponseLine(head)
    ensures e.headers == CopyHeaders(STORED_HEADERS, f) && e.etag == f.values.etag
    ensures e.lastModified == GetHeader(f, "Last-Modified")
  {
    f := ParseResponse(head, clock.parseTime, clock.parsed).value;
    assert Contains(head, HEADER_END);
    hide ParseResponse, Contains, CopyHeaders, GetHeader, ResponseLine, FromTimeT;
  }

  lemma HeadersFromText(text: string, f: Fields)
    requires forall key :: GetHeader(f, key) == LastOf(ValuesOf(text, key), "")
    ensures forall k :: k in CopyHeaders(STORED_HEADERS, f) <==>
              && IsStoredName(k)
              && LastOf(ValuesOf(text, k), "") != ""
    ensures forall k :: k in CopyHeaders(STORED_HEADERS, f) ==>
              CopyHeaders(STORED_HEADERS, f)[k] == LastOf(ValuesOf(text, k), "")
  {
    CopiedHeaders(STORED_HEADERS, f);
    StoredNames();
    hide CopyHeaders, GetHeader, LastOf, ValuesOf, IsStoredName;
  }

  lemma StoredNames()
    ensures forall k :: k in STORED_HEADERS <==>
              IsStoredName(k)
  {}

  lemma StatusLineCut(head: string)
    requires Contains(head, HEADER_END)
    ensures var line := ResponseLine(head);
            line <= head && At(head, "\r\n", |line|) && forall i: nat :: i < |line| ==> !At(head, "\r\n", i)
  {
    LineEndBeforeHeaderEnd(head);
  }

  lemma LineEndBeforeHeaderEnd(head: string)
    requires Contains(head, HEADER_END)
    ensures Contains(head, CRLF)
  {
    var end := Find(head, HEADER_END).value;
    AtParts(head, CRLF, CRLF, end);
    assert CRLF + CRLF == HEADER_END;
  }
}
