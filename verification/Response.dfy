/** `Response` (proxy/response.cpp): a header parser that feeds the freshness calculation of
    sections 4.2 and 4.2.1 of RFC 7234.  `Parse` and its helpers assign fields one after the other
    as the source does; each is proved against a function on the record of all fields. */
module Response {
  import opened CacheEntries
  import opened Text

  /** `parse_time`: dates become `time_t` values in a way this model leaves open. */
  type DateParser = string -> int64

  /** The data members, in three groups: plain header values, Cache-Control, and time. */
  datatype Values = Values(
    etag: string, cacheControl: string, contentType: string, contentLength: int, chunked: bool,
    lastModified: int64)

  datatype Control = Control(
    isPrivate: bool, noStore: bool, noCache: bool, revalidate: bool, maxAge: int64, sMaxAge: int64)

  datatype Fields = Fields(
    headers: map<string, string>, values: Values, control: Control, isFresh: bool,
    needValidate: bool, date: int64, expires: int64, currentAge: int64)

  const DEFAULTS := Fields(
    map[], Values("", "", "", -1, false, 0), Control(false, false, false, false, -1, -1),
    true, true, 0, 0, 0)

  // ---------------------------------------------------------------- specification

  /** `process_cache_control`: the flags are those of this value alone, the ages are kept from
      earlier values unless this one gives them.  None: a number does not parse. */
  function CacheControl(c: Control, value: string): Option<Control> {
    match WithAge(c.sMaxAge, value, "s-maxage=")
    case None => None
    case Some(s) =>
      match WithAge(c.maxAge, value, "max-age=")
      case None => None
      case Some(m) =>
        Some(Control(Contains(value, "private"), Contains(value, "no-store"),
                     Contains(value, "no-cache"), Contains(value, "must-revalidate"), m, s))
  }

  /** The number after `directive`, or `age` when the value does not have it. */
  function WithAge(age: int64, value: string, directive: string): Option<int64> {
    match Find(value, directive)
    case None => Some(age)
    case Some(pos) => Stol(value[pos + |directive|..])
  }

  function Header(f: Fields, key: string, value: string, parseTime: DateParser): Option<Fields> {
    var f := f.(headers := f.headers[key := value]);
    if key == "Content-Type" then Some(f.(values := f.values.(contentType := value)))
    else if key == "Content-Length" then
      match Stoi(value)
      case None => None
      case Some(n) => Some(f.(values := f.values.(contentLength := n)))
    else if key == "ETag" then Some(f.(values := f.values.(etag := value)))
    else if key == "Cache-Control" then
      match CacheControl(f.control, value)
      case None => None
      case Some(c) => Some(f.(values := f.values.(cacheControl := value), control := c))
    else if key == "Transfer-Encoding" && value == "chunked" then
      Some(f.(values := f.values.(chunked := true)))
    else if key == "Date" then Some(f.(date := parseTime(value)))
    else if key == "Last-Modified" then
      Some(f.(values := f.values.(lastModified := parseTime(value)), needValidate := true))
    else if key == "Expires" then Some(f.(expires := parseTime(value)))
    else Some(f)
  }

  /** One header line; a line without ": " is skipped. */
  function HeaderLine(f: Fields, line: string, parseTime: DateParser): Option<Fields> {
    match Find(line, ": ")
    case None => Some(f)
    case Some(colon) => Header(f, line[..colon], line[colon + 2..], parseTime)
  }

  /** All header lines up to the end of the text or the first empty line. */
  function HeaderLines(f: Fields, text: string, parseTime: DateParser): Option<Fields>
    decreases |text|
  {
    if text == "" then Some(f)
    else
      var (line, rest) := NextLine(text);
      if line == "" then Some(f)
      else
        match HeaderLine(f, line, parseTime)
        case None => None
        case Some(f') => HeaderLines(f', rest, parseTime)
  }

  /** The lifetime that was given in seconds: a positive s-maxage, else max-age. */
  function ChosenAge(f: Fields): int64 {
    if f.control.sMaxAge > 0 then f.control.sMaxAge else f.control.maxAge
  }

  /** `manage_cache_time`: a positive s-maxage, else a positive max-age, else Expires. */
  function Manage(f: Fields, now: int64): Fields {
    var lifetime, age := ChosenAge(f), now - f.date;
    f.(expires := if lifetime > 0 then Wrap64(f.date + lifetime) else f.expires,
       isFresh := if lifetime > 0 then lifetime > age else f.expires <= 0 || f.expires > now,
       currentAge := Wrap64(age))
  }

  /** `validate_freshness`: only freshness and the last Cache-Control value decide. */
  function Validate(f: Fields): Fields {
    var cc := GetHeader(f, "Cache-Control");
    f.(needValidate := !f.isFresh || Contains(cc, "must-revalidate") || Contains(cc, "no-cache"))
  }

  function GetHeader(f: Fields, key: string): string {
    if key in f.headers then f.headers[key] else ""
  }

  /** The text of the header lines: what follows the status line. */
  function AfterStatusLine(text: string): string {
    if text == "" then "" else NextLine(text).1
  }

  /** The constructor: None stands for the exception it throws. */
  function ParseResponse(raw: string, parseTime: DateParser, now: Tick): Option<Fields> {
    match Find(raw, HEADER_END)
    case None => None
    case Some(end) =>
      match HeaderLines(DEFAULTS, AfterStatusLine(raw[..end]), parseTime)
      case None => None
      case Some(f) => Some(Validate(Manage(f, Seconds(now))))
  }

  // ---------------------------------------------------------------- the class

  /** The object under construction; its members are updated one at a time. */
  class Response {
    var headers: map<string, string>
    var values: Values
    var control: Control
    var isFresh: bool
    var needValidate: bool
    var date: int64
    var expires: int64
    var currentAge: int64
    var body: string

    function State(): Fields
      reads this
    {
      Fields(headers, values, control, isFresh, needValidate, date, expires, currentAge)
    }

    constructor ()
      ensures State() == DEFAULTS && body == ""
    {
      headers, values, control := map[], DEFAULTS.values, DEFAULTS.control;
      isFresh, needValidate, date, expires, currentAge, body := true, true, 0, 0, 0, "";
    }

    /** `ok` is false where a number does not parse and the source throws. */
    method ProcessCacheControl(value: string) returns (ok: bool)
      modifies `control
      ensures ok == CacheControl(old(control), value).Some?
      ensures ok ==> control == CacheControl(old(control), value).value
    {
      hide Contains, Stol;
      control := control.(isPrivate := Contains(value, "private"));
      control := control.(noStore := Contains(value, "no-store"));
      control := control.(noCache := Contains(value, "no-cache"));
      control := control.(revalidate := Contains(value, "must-revalidate"));
      var pos := Find(value, "s-maxage=");
      if pos.Some? {
        var n := Stol(value[pos.value + 9..]);
        if n.None? { return false; }
        control := control.(sMaxAge := n.value);
      }
      pos := Find(value, "max-age=");
      if pos.Some? {
        var n := Stol(value[pos.value + 8..]);
        if n.None? { return false; }
        control := control.(maxAge := n.value);
      }
      return true;
    }

    method ProcessHeader(key: string, value: string, parseTime: DateParser) returns (ok: bool)
      modifies `headers, `values, `control, `needValidate, `date, `expires
      ensures ok == Header(old(State()), key, value, parseTime).Some?
      ensures ok ==> State() == Header(old(State()), key, value, parseTime).value
    {
      headers := headers[key := value];
      ok := true;
      if key == "Content-Type" {
        values := values.(contentType := value);
      } else if key == "Content-Length" {
        var n := Stoi(value);
        if n.None? { return false; }
        values := values.(contentLength := n.value);
      } else if key == "ETag" {
        values := values.(etag := value);
      } else if key == "Cache-Control" {
        values := values.(cacheControl := value);
        ok := ProcessCacheControl(value);
      } else if key == "Transfer-Encoding" && value == "chunked" {
        values := values.(chunked := true);
      } else if key == "Date" {
        date := parseTime(value);
      } else if key == "Last-Modified" {
        values := values.(lastModified := parseTime(value));
        needValidate := true;
      } else if key == "Expires" {
        expires := parseTime(value);
      }
    }

    method ManageCacheTime(now: int64)
      modifies `expires, `isFresh, `currentAge
      ensures State() == Manage(old(State()), now)
    {
      var age := now - date;
      if control.sMaxAge > 0 {
        expires := Wrap64(date + control.sMaxAge);
        isFresh := control.sMaxAge > age;
      } else if control.maxAge > 0 {
        expires := Wrap64(date + control.maxAge);
        isFresh := control.maxAge > age;
      } else if expires > 0 {
        isFresh := expires > now;
      } else {
        isFresh := true;
      }
      currentAge := Wrap64(now - date);
    }

    method ValidateFreshness()
      modifies `needValidate
      ensures State() == Validate(old(State()))
    {
      needValidate := !isFresh;
      if !needValidate && "Cache-Control" in headers {
        var value := headers["Cache-Control"];
        if Contains(value, "must-revalidate") || Contains(value, "no-cache") {
          needValidate := true;
        }
      }
    }

    /** Reads the header lines of a fresh object; `now` is the clock read by `time(NULL)`. */
    method Parse(raw: string, parseTime: DateParser, now: Tick) returns (ok: bool)
      requires State() == DEFAULTS
      modifies this
      ensures ok == ParseResponse(raw, parseTime, now).Some?
      ensures ok ==> State() == ParseResponse(raw, parseTime, now).value
      ensures ok ==> Find(raw, HEADER_END).Some? && body == raw[Find(raw, HEADER_END).value + 4..]
    {
      hide Header, Manage, Validate, NextLine, FindFrom;
      var bodyPos := Find(raw, HEADER_END);
      if bodyPos.None? { return false; }
      var stream := raw[..bodyPos.value];
      body := raw[bodyPos.value + 4..];
      if stream != "" {
        stream := NextLine(stream).1;
      }
      ghost var text := stream;
      while stream != ""
        invariant HeaderLines(State(), stream, parseTime) == HeaderLines(DEFAULTS, text, parseTime)
        invariant body == raw[bodyPos.value + 4..]
        decreases |stream|
      {
        var (line, rest) := NextLine(stream);
        if line == "" { break; }
        stream := rest;
        var colon := Find(line, ": ");
        if colon.Some? {
          var parsed := ProcessHeader(line[..colon.value], line[colon.value + 2..], parseTime);
          if !parsed { return false; }
        }
      }
      ManageCacheTime(Seconds(now));
      ValidateFreshness();
      return true;
    }
  }
}
