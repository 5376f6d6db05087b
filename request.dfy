/**
 * Request parsing (server/request.rs).
 *
 * `Request::from_stream` reads a request line, header lines up to the first blank
 * one, and then exactly `Content-Length` body bytes from a socket. Here the socket is
 * replaced by what it would deliver: the text lines `read_line` returns, in order and
 * with their line terminators, and the bytes that follow the header block. Reading
 * past the last line gives `""`, as `read_line` does at end of stream. The source
 * panics on a short request line, a header line without `:` and a short body; those
 * panics are the `Failure` cases.
 */
module Requests {
  import opened Wrappers
  import opened Text

  /** `Request` without its socket handle; `httpMethod` is the source's `method` field. */
  datatype Request = Request(
    httpMethod: string,
    path: string,
    version: string,
    headers: map<string, string>,
    body: seq<byte>)

  /** Where `from_stream` panics. */
  datatype ReadError =
    | MalformedRequestLine(line: string)
    | MalformedHeader(line: string)
    | BodyTooShort(expected: nat, available: nat)

  /** `Request::default`. */
  function Default(): (r: Request)
    ensures r.httpMethod == "" && r.path == "" && r.version == ""
    ensures r.headers == map[] && r.body == []
  {
    Request("", "", "", map[], [])
  }

  /** The `i`-th line `read_line` delivers; at end of stream it delivers `""`. */
  function LineAt(lines: seq<string>, i: nat): string
  {
    if i < |lines| then lines[i] else ""
  }

  /** A line that ends the header block: nothing but whitespace (see `BlankIsTrimEmpty`). */
  predicate IsBlank(line: string)
  {
    forall i :: 0 <= i < |line| ==> IsWhitespace(line[i])
  }

  /** `line.trim().is_empty()` is exactly `IsBlank(line)`. */
  lemma BlankIsTrimEmpty(line: string)
    ensures IsBlank(line) <==> Trim(line) == ""
  {
    TrimEmpty(line);
  }

  /** `if path.ends_with('/') { path.pop() }`. */
  function StripSlash(path: string): (p: string)
    ensures p + (if EndsWith(path, '/') then "/" else "") == path
  {
    if EndsWith(path, '/') then path[..|path| - 1] else path
  }

  /** Exactly one trailing slash goes: `"/"` becomes `""` and `"a//"` becomes `"a/"`. */
  lemma StripSlashExamples()
    ensures StripSlash("/") == ""
    ensures StripSlash("/a//") == "/a/"
    ensures StripSlash("/a") == "/a"
  {
  }

  /** A path that does not end in `/` is kept, and one that does loses one character. */
  lemma StripSlashOnce(path: string)
    ensures |StripSlash(path)| == if EndsWith(path, '/') then |path| - 1 else |path|
    ensures !EndsWith(path, '/') ==> StripSlash(path) == path
  {
    assert StripSlash(path) + (if EndsWith(path, '/') then "/" else "") == path;
  }

  /** The key a header line is stored under: the text before its first `:`. */
  function KeyOf(line: string): string
  {
    Split(line, ':')[0]
  }

  /** The text after the first `:` of a line that has one. */
  function AfterColon(line: string): (r: string)
    requires ':' in line
    ensures |r| < |line|
  {
    if line[0] == ':' then line[1..]
    else
      assert line == [line[0]] + line[1..];
      AfterColon(line[1..])
  }

  /** The pieces of `split(':')` are the key, then the pieces of what follows the first `:`. */
  lemma {:induction false} SplitAfterColon(line: string)
    requires ':' in line
    ensures Split(line, ':') == [KeyOf(line)] + Split(AfterColon(line), ':')
  {
    if line[0] != ':' {
      assert line == [line[0]] + line[1..];
      SplitAfterColon(line[1..]);
    }
  }

  /** A key free of `:`, then `:`: what follows is the rest. */
  lemma {:induction false} AfterColonPrefix(key: string, rest: string)
    requires ':' !in key
    ensures ':' in key + [':'] + rest && AfterColon(key + [':'] + rest) == rest
  {
    var line := key + [':'] + rest;
    assert line[|key|] == ':';
    if |key| > 0 {
      assert line[1..] == key[1..] + [':'] + rest;
      AfterColonPrefix(key[1..], rest);
    }
  }

  /** One header line: the key before its first `:`, the trimmed text between the first and the second. */
  function HeaderEntry(line: string): (r: Result<(string, string), ReadError>)
    ensures r.Success? <==> ':' in line
    ensures r.Success? ==> ':' !in r.value.0 && ':' !in r.value.1
    ensures r.Success? ==> r.value.0 == KeyOf(line)
    ensures r.Failure? ==> r.error == MalformedHeader(line)
  {
    if ':' in line then
      TrimNoNewChars(KeyOf(AfterColon(line)), ':');
      Success((KeyOf(line), Trim(KeyOf(AfterColon(line)))))
    else
      Failure(MalformedHeader(line))
  }

  /**
   * `HeaderEntry` is the source's `split(':')` reading: the line has a second piece
   * exactly when it has a `:`, and then the key is the first piece and the value the
   * trimmed second one.
   */
  lemma HeaderEntrySplits(line: string)
    ensures |Split(line, ':')| >= 2 <==> ':' in line
    ensures ':' in line ==> HeaderEntry(line) == Success((Split(line, ':')[0], Trim(Split(line, ':')[1])))
  {
    if ':' in line {
      SplitAfterColon(line);
    } else {
      SplitFree(line, ':');
    }
  }

  /** `trim` only drops characters, so it brings in none that `s` lacks. */
  lemma TrimNoNewChars(s: string, c: char)
    requires c !in s
    ensures c !in Trim(s)
  {
    var a := TrimStart(s);
    TrimStartDrops(s);
    forall i | 0 <= i < |a|
      ensures a[i] != c
    {
      assert a[i] == s[|s| - |a| + i];
    }
    var t := TrimEnd(a);
    TrimEndDrops(a);
    forall i | 0 <= i < |t|
      ensures t[i] != c
    {
      assert t[i] == a[i];
    }
  }

  /** The headers of `hs`, inserted in order into an empty map; the first bad line panics. */
  function HeaderMap(hs: seq<string>): (r: Result<map<string, string>, ReadError>)
    ensures r.Failure? ==> r.error.MalformedHeader?
  {
    if |hs| == 0 then Success(map[])
    else
      match HeaderMap(hs[..|hs| - 1])
      case Failure(e) => Failure(e)
      case Success(m) =>
        match HeaderEntry(hs[|hs| - 1])
        case Failure(e) => Failure(e)
        case Success(kv) => Success(m[kv.0 := kv.1])
  }

  /** The index of the first blank line at or after `i`, or `|lines|` if there is none. */
  function FirstBlank(lines: seq<string>, i: nat): (end: nat)
    requires i <= |lines|
    ensures i <= end <= |lines|
    ensures end < |lines| ==> IsBlank(lines[end])
    ensures forall j :: i <= j < end ==> !IsBlank(lines[j])
    decreases |lines| - i
  {
    if i == |lines| || IsBlank(lines[i]) then i else FirstBlank(lines, i + 1)
  }

  /** The header lines `from_stream` consumes: those after the request line, up to the first blank one. */
  function HeaderLines(lines: seq<string>): (hs: seq<string>)
    ensures forall j :: 0 <= j < |hs| ==> !IsBlank(hs[j])
  {
    if |lines| == 0 then [] else lines[1..FirstBlank(lines, 1)]
  }

  /** `headers.get("Content-Length").unwrap_or("0").parse::<usize>().unwrap_or(0)`. */
  function ContentLength(headers: map<string, string>): (n: nat)
    ensures n <= UsizeMax
    ensures "Content-Length" !in headers ==> n == 0
    ensures "Content-Length" in headers && ParseUsize(headers["Content-Length"]).None? ==> n == 0
    ensures "Content-Length" in headers && ParseUsize(headers["Content-Length"]).Some? ==>
              n == ParseUsize(headers["Content-Length"]).value
  {
    var raw := if "Content-Length" in headers then headers["Content-Length"] else "0";
    match ParseUsize(raw)
    case Some(k) =>
      ParseUsizeSound(raw, k);
      k
    case None => 0
  }

  /** The three fields of the request line: split at single spaces, path without one trailing `/`, version trimmed. */
  function RequestLine(line: string): (r: Result<(string, string, string), ReadError>)
    ensures r.Failure? <==> |Split(line, ' ')| < 3
    ensures r.Failure? ==> r.error == MalformedRequestLine(line)
  {
    var tokens := Split(line, ' ');
    if |tokens| < 3 then Failure(MalformedRequestLine(line))
    else Success((tokens[0], StripSlash(tokens[1]), Trim(tokens[2])))
  }

  /** `read_exact` of `n` bytes: exactly `n` bytes, or a panic when fewer remain. */
  function TakeBody(bytes: seq<byte>, n: nat): (r: Result<seq<byte>, ReadError>)
    ensures r.Success? <==> n <= |bytes|
    ensures r.Success? ==> |r.value| == n && r.value == bytes[..n]
    ensures r.Failure? ==> r.error == BodyTooShort(n, |bytes|)
  {
    if |bytes| < n then Failure(BodyTooShort(n, |bytes|)) else Success(bytes[..n])
  }

  /**
   * What `from_stream` returns for a stream that delivers `lines` and then `bytes`:
   * the request line, the header block, and `Content-Length` body bytes.
   */
  function Parse(lines: seq<string>, bytes: seq<byte>): Result<Request, ReadError>
  {
    match RequestLine(LineAt(lines, 0))
    case Failure(e) => Failure(e)
    case Success(fields) =>
      match HeaderMap(HeaderLines(lines))
      case Failure(e) => Failure(e)
      case Success(headers) =>
        match TakeBody(bytes, ContentLength(headers))
        case Failure(e) => Failure(e)
        case Success(body) => Success(Request(fields.0, fields.1, fields.2, headers, body))
  }

  /**
   * `Request::from_stream` (request.rs:40-87): fills a default request field by field,
   * then reads header lines until a blank one, then the body.
   */
  method FromStream(lines: seq<string>, bytes: seq<byte>) returns (r: Result<Request, ReadError>)
    ensures r == Parse(lines, bytes)
  {
    var request := Default();
    var firstLine := LineAt(lines, 0);
    var firstLineSplit := Split(firstLine, ' ');
    if |firstLineSplit| < 3 {
      return Failure(MalformedRequestLine(firstLine));
    }
    request := request.(httpMethod := firstLineSplit[0], path := firstLineSplit[1], version := Trim(firstLineSplit[2]));
    if EndsWith(request.path, '/') {
      request := request.(path := request.path[..|request.path| - 1]);
    }
    var headers := ReadHeaders(lines);
    if headers.Failure? {
      return Failure(headers.error);
    }
    var raw := if "Content-Length" in headers.value then headers.value["Content-Length"] else "0";
    var contentLength := ParseUsize(raw).GetOr(0);
    if |bytes| < contentLength {
      return Failure(BodyTooShort(contentLength, |bytes|));
    }
    request := request.(headers := headers.value, body := bytes[..contentLength]);
    return Success(request);
  }

  /** The header loop of `from_stream` (request.rs:58-68). */
  method ReadHeaders(lines: seq<string>) returns (r: Result<map<string, string>, ReadError>)
    ensures r == HeaderMap(HeaderLines(lines))
  {
    if |lines| == 0 {
      return Success(map[]);
    }
    var i := 1;
    var headers: map<string, string> := map[];
    while i < |lines| && !IsBlank(lines[i])
      invariant 1 <= i <= |lines|
      invariant FirstBlank(lines, i) == FirstBlank(lines, 1)
      invariant HeaderMap(lines[1..i]) == Success(headers)
      decreases |lines| - i
    {
      var lineSplit := Split(lines[i], ':');
      HeaderMapStep(lines, i);
      HeaderEntrySplits(lines[i]);
      if |lineSplit| < 2 {
        HeaderMapFailurePersists(lines[1..i + 1], lines[1..FirstBlank(lines, 1)]);
        return Failure(MalformedHeader(lines[i]));
      }
      headers := headers[lineSplit[0] := Trim(lineSplit[1])];
      i := i + 1;
    }
    assert FirstBlank(lines, i) == i;
    return Success(headers);
  }

  /** One more header line: `FirstBlank` moves past it and `HeaderMap` inserts it. */
  lemma HeaderMapStep(lines: seq<string>, i: nat)
    requires 1 <= i < |lines| && !IsBlank(lines[i])
    ensures FirstBlank(lines, i) == FirstBlank(lines, i + 1)
    ensures HeaderMap(lines[1..i + 1]) ==
      match HeaderMap(lines[1..i])
      case Failure(e) => Failure(e)
      case Success(m) =>
        match HeaderEntry(lines[i])
        case Failure(e) => Failure(e)
        case Success(kv) => Success(m[kv.0 := kv.1])
  {
    assert lines[1..i + 1][..i - 1] == lines[1..i];
    assert lines[1..i + 1][i - 1] == lines[i];
  }

  /** A failing prefix makes every extension fail with the same error. */
  lemma {:induction false} HeaderMapFailurePersists(hs: seq<string>, longer: seq<string>)
    requires HeaderMap(hs).Failure? && hs <= longer
    ensures HeaderMap(longer) == HeaderMap(hs)
    decreases |longer|
  {
    if |longer| > |hs| {
      assert longer[..|longer| - 1][..|hs|] == hs;
      assert hs <= longer[..|longer| - 1];
      HeaderMapFailurePersists(hs, longer[..|longer| - 1]);
    } else {
      assert longer == hs;
    }
  }

  // ---------------------------------------------------------------------------
  // Properties of the parse

  /**
   * The request line is split at single spaces: fewer than three pieces panics;
   * otherwise method, path and version are the first three, extra pieces are ignored,
   * only the version is trimmed and the path loses one trailing `/`.
   */
  lemma RequestLineFields(lines: seq<string>, bytes: seq<byte>)
    ensures var tokens := Split(LineAt(lines, 0), ' ');
      && (|tokens| < 3 <==> Parse(lines, bytes) == Failure(MalformedRequestLine(LineAt(lines, 0))))
      && (Parse(lines, bytes).Success? ==>
            && Parse(lines, bytes).value.httpMethod == tokens[0]
            && Parse(lines, bytes).value.path == StripSlash(tokens[1])
            && Parse(lines, bytes).value.version == Trim(tokens[2]))
  {
    var tokens := Split(LineAt(lines, 0), ' ');
    if |tokens| >= 3 {
      if HeaderMap(HeaderLines(lines)).Success? {
        var n := ContentLength(HeaderMap(HeaderLines(lines)).value);
        assert Parse(lines, bytes).Failure? ==> Parse(lines, bytes).error == BodyTooShort(n, |bytes|);
      } else {
        assert Parse(lines, bytes).error.MalformedHeader?;
      }
    }
  }

  /** An empty stream is not a request: `read_line` gives `""` and the index panics. */
  lemma EmptyStreamFails(bytes: seq<byte>)
    ensures Parse([], bytes) == Failure(MalformedRequestLine(""))
  {
    SplitFree("", ' ');
  }

  lemma {:induction false} FirstBlankAppend(head: seq<string>, blank: string, more: seq<string>, i: nat)
    requires IsBlank(blank) && i <= |head|
    ensures FirstBlank(head + [blank] + more, i) == FirstBlank(head, i)
    decreases |head| - i
  {
    var all := head + [blank] + more;
    if i < |head| {
      assert all[i] == head[i];
      if !IsBlank(head[i]) {
        FirstBlankAppend(head, blank, more, i + 1);
      }
    } else {
      assert all[i] == blank;
    }
  }

  /**
   * Header parsing stops at the first blank line: what follows it in the line stream
   * never reaches the request.
   */
  lemma StopsAtBlankLine(head: seq<string>, blank: string, more: seq<string>, bytes: seq<byte>)
    requires |head| >= 1 && IsBlank(blank)
    ensures Parse(head + [blank] + more, bytes) == Parse(head, bytes)
  {
    var all := head + [blank] + more;
    FirstBlankAppend(head, blank, more, 1);
    assert LineAt(all, 0) == LineAt(head, 0);
    assert all[1..FirstBlank(all, 1)] == head[1..FirstBlank(head, 1)];
  }

  /** A header line's value is the trimmed text between its first and second `:`. */
  lemma HeaderEntryParts(key: string, value: string, rest: string)
    requires ':' !in key && ':' !in value
    ensures HeaderEntry(key + [':'] + value + [':'] + rest) == Success((key, Trim(value)))
    ensures HeaderEntry(key + [':'] + value) == Success((key, Trim(value)))
  {
    assert key + [':'] + value + [':'] + rest == key + [':'] + (value + [':'] + rest);
    AfterColonPrefix(key, value + [':'] + rest);
    AfterColonPrefix(key, value);
    SplitPrefix(key, ':', value + [':'] + rest);
    SplitPrefix(key, ':', value);
    SplitPrefix(value, ':', rest);
    SplitFree(value, ':');
  }

  lemma HostLineParts()
    ensures "Host" + [':'] + " a" + [':'] + "80\r\n" == "Host: a:80\r\n"
    ensures ':' !in "Host" && ':' !in " a"
  {
  }

  lemma TrimSpaceA()
    ensures Trim(" a") == "a"
  {
    assert " a"[1..] == "a";
    assert TrimStart(" a") == TrimStart("a");
    assert TrimStart("a") == "a";
    assert TrimEnd("a") == "a";
  }

  /** `"Host: a:80"` stores `"a"` under `"Host"`: the value ends at the second `:`. */
  lemma HostHeaderTruncated()
    ensures HeaderEntry("Host: a:80\r\n") == Success(("Host", "a"))
  {
    HostLineParts();
    HeaderEntryParts("Host", " a", "80\r\n");
    TrimSpaceA();
  }

  /** A header block parses exactly when every line has a `:`; otherwise the first line without one panics. */
  lemma {:induction false} HeaderMapSucceeds(hs: seq<string>)
    ensures HeaderMap(hs).Success? <==> forall j :: 0 <= j < |hs| ==> ':' in hs[j]
    ensures HeaderMap(hs).Failure? ==>
      exists j :: 0 <= j < |hs| && ':' !in hs[j] && HeaderMap(hs).error == MalformedHeader(hs[j])
        && forall i :: 0 <= i < j ==> ':' in hs[i]
  {
    if |hs| > 0 {
      var init := hs[..|hs| - 1];
      var last := hs[|hs| - 1];
      HeaderMapSucceeds(init);
      assert forall j :: 0 <= j < |init| ==> init[j] == hs[j];
      if HeaderMap(init).Failure? {
        assert HeaderMap(hs) == HeaderMap(init);
        var j :| 0 <= j < |init| && ':' !in init[j] && HeaderMap(init).error == MalformedHeader(init[j])
          && forall i :: 0 <= i < j ==> ':' in init[i];
        assert hs[j] == init[j];
      } else if ':' !in last {
        assert HeaderEntry(last) == Failure(MalformedHeader(last));
        assert HeaderMap(hs) == Failure(MalformedHeader(last));
        assert ':' !in hs[|hs| - 1];
      } else {
        assert HeaderEntry(last).Success?;
        assert HeaderMap(hs).Success?;
      }
    }
  }

  /** The keys of a parsed header block are the keys of its lines. */
  lemma {:induction false} HeaderMapKeys(hs: seq<string>)
    requires HeaderMap(hs).Success?
    ensures HeaderMap(hs).value.Keys == set j | 0 <= j < |hs| :: KeyOf(hs[j])
  {
    if |hs| > 0 {
      var init := hs[..|hs| - 1];
      var last := hs[|hs| - 1];
      HeaderMapKeys(init);
      var keys := set j | 0 <= j < |hs| :: KeyOf(hs[j]);
      var initKeys := set j | 0 <= j < |init| :: KeyOf(init[j]);
      forall j | 0 <= j < |hs|
        ensures KeyOf(hs[j]) in initKeys + {KeyOf(last)}
      {
        if j < |init| {
          assert init[j] == hs[j];
        }
      }
      forall j | 0 <= j < |init|
        ensures KeyOf(init[j]) in keys
      {
        assert hs[j] == init[j];
      }
      assert keys == initKeys + {KeyOf(last)};
    }
  }

  /** A repeated header keeps the value of its last line. */
  lemma {:induction false} HeaderMapLastWins(hs: seq<string>, j: nat)
    requires HeaderMap(hs).Success? && j < |hs|
    requires forall i :: j < i < |hs| ==> KeyOf(hs[i]) != KeyOf(hs[j])
    ensures KeyOf(hs[j]) in HeaderMap(hs).value && HeaderEntry(hs[j]).Success?
    ensures HeaderMap(hs).value[KeyOf(hs[j])] == HeaderEntry(hs[j]).value.1
  {
    var init := hs[..|hs| - 1];
    if j < |hs| - 1 {
      assert init[j] == hs[j];
      assert forall i :: j < i < |init| ==> init[i] == hs[i];
      HeaderMapLastWins(init, j);
    }
  }

  /** Exactly `Content-Length` bytes become the body, and a short stream panics. */
  lemma BodyLength(lines: seq<string>, bytes: seq<byte>)
    ensures Parse(lines, bytes).Success? ==>
      var r := Parse(lines, bytes).value;
      |r.body| == ContentLength(r.headers) && r.body == bytes[..ContentLength(r.headers)]
    ensures Parse(lines, bytes).Failure? && Parse(lines, bytes).error.BodyTooShort? ==>
      Parse(lines, bytes).error.available < Parse(lines, bytes).error.expected
  {
    if RequestLine(LineAt(lines, 0)).Failure? {
    } else if HeaderMap(HeaderLines(lines)).Failure? {
      HeaderMapSucceeds(HeaderLines(lines));
    }
  }

  /** Without a `Content-Length` header, or with one that is not a number, the body is empty. */
  lemma NoLengthNoBody(lines: seq<string>, bytes: seq<byte>)
    requires Parse(lines, bytes).Success?
    requires var h := Parse(lines, bytes).value.headers;
      "Content-Length" !in h || ParseUsize(h["Content-Length"]).None?
    ensures Parse(lines, bytes).value.body == []
  {
    BodyLength(lines, bytes);
  }

  // ---------------------------------------------------------------------------
  // header::<T>(name)

  /** The panic in `header` when the value does not parse as `T`. */
  datatype HeaderError = UnparsableHeader(name: string, value: string)

  /**
   * `Request::header` (request.rs:91-98): `parse` stands for `T::from_str`. An absent
   * header is `None`; a present one parses or panics.
   */
  function Header<T>(r: Request, name: string, parse: string -> Option<T>): (h: Result<Option<T>, HeaderError>)
    ensures name !in r.headers <==> h == Success(None)
    ensures name in r.headers && parse(r.headers[name]).Some? ==> h == Success(parse(r.headers[name]))
    ensures name in r.headers && parse(r.headers[name]).None? <==> h.Failure?
  {
    if name !in r.headers then Success(None)
    else
      match parse(r.headers[name])
      case Some(v) => Success(Some(v))
      case None => Failure(UnparsableHeader(name, r.headers[name]))
  }
}
