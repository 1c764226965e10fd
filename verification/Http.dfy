/** HttpReqDecoder.cc: the incremental request decoder over the byte queue. */
module Http {
  import opened Buffers
  import opened Blocks
  import opened Options

  datatype Method = OPTIONS | GET | HEAD | POST | DELETE | TRACE

  datatype Version = Http10 | Http11

  function MethodOf(s: string): Option<Method>
  {
    if s == "GET" then Some(GET)
    else if s == "POST" then Some(POST)
    else if s == "HEAD" then Some(HEAD)
    else if s == "DELETE" then Some(DELETE)
    else if s == "OPTIONS" then Some(OPTIONS)
    else if s == "TRACE" then Some(TRACE)
    else None
  }

  function VersionOf(s: string): Option<Version>
  {
    if s == "HTTP/1.0" then Some(Http10) else if s == "HTTP/1.1" then Some(Http11) else None
  }

  /** The six names and no others, PUT and CONNECT not among them. */
  lemma MethodNames(s: string)
    ensures MethodOf(s) == Some(GET) <==> s == "GET"
    ensures MethodOf(s) == Some(POST) <==> s == "POST"
    ensures MethodOf(s) == Some(HEAD) <==> s == "HEAD"
    ensures MethodOf(s) == Some(DELETE) <==> s == "DELETE"
    ensures MethodOf(s) == Some(OPTIONS) <==> s == "OPTIONS"
    ensures MethodOf(s) == Some(TRACE) <==> s == "TRACE"
    ensures MethodOf("PUT") == None && MethodOf("CONNECT") == None
  {
  }

  lemma VersionNames(s: string)
    ensures VersionOf(s) == Some(Http10) <==> s == "HTTP/1.0"
    ensures VersionOf(s) == Some(Http11) <==> s == "HTTP/1.1"
  {
  }

  // ------------------------------------------------------------------- searching

  function Find(s: string, c: char, from: nat): (i: nat)
    requires from <= |s|
    ensures from <= i <= |s| && (i < |s| ==> s[i] == c)
    ensures forall k | from <= k < i :: s[k] != c
    decreases |s| - from
  {
    if from == |s| || s[from] == c then from else Find(s, c, from + 1)
  }

  predicate CrlfAt(s: string, k: nat)
  {
    k + 1 < |s| && s[k] == '\r' && s[k + 1] == '\n'
  }

  function FindCrlf(s: string, from: nat): (i: nat)
    requires from <= |s|
    ensures from <= i <= |s| && (i < |s| ==> CrlfAt(s, i))
    ensures forall k | from <= k < i :: !CrlfAt(s, k)
    decreases |s| - from
  {
    if from == |s| || CrlfAt(s, from) then from else FindCrlf(s, from + 1)
  }

  // --------------------------------------------------------------------- headers

  function Lower(c: char): char
  {
    if 'A' <= c <= 'Z' then (c as int + 32) as char else c
  }

  /** What strcasecmp compares of a name: its characters before a zero, in lower case. */
  function CaseKey(name: string): (k: string)
    ensures |k| == Find(name, '\0', 0)
  {
    seq(Find(name, '\0', 0), i requires 0 <= i < Find(name, '\0', 0) => Lower(name[i]))
  }

  /** The same character, or the two cases of one ASCII letter. */
  predicate SameLetter(a: char, b: char)
  {
    || a == b
    || ('A' <= a <= 'Z' && b as int == a as int + 32)
    || ('A' <= b <= 'Z' && a as int == b as int + 32)
  }

  /** Names that strcasecmp takes for equal: the same letters up to a zero, in any case. */
  predicate SameName(a: string, b: string)
  {
    var n := Find(a, '\0', 0);
    Find(b, '\0', 0) == n && forall i | 0 <= i < n :: SameLetter(a[i], b[i])
  }

  lemma LowerSame(a: char, b: char)
    ensures Lower(a) == Lower(b) <==> SameLetter(a, b)
  {
  }

  lemma CaseKeys(a: string, b: string)
    ensures CaseKey(a) == CaseKey(b) <==> SameName(a, b)
  {
    hide Lower, SameLetter, Find;
    var n := Find(a, '\0', 0);
    if Find(b, '\0', 0) == n {
      forall i | 0 <= i < n
        ensures CaseKey(a)[i] == CaseKey(b)[i] <==> SameLetter(a[i], b[i])
      {
        LowerSame(a[i], b[i]);
      }
      assert CaseKey(a) == CaseKey(b) <==> forall i | 0 <= i < n :: CaseKey(a)[i] == CaseKey(b)[i];
    } else {
      assert |CaseKey(a)| != |CaseKey(b)|;
    }
  }

  datatype Field = Field(name: string, value: string)

  /** A std::map ordered by strcasecmp: one entry for all names with the same key. */
  type Headers = map<string, Field>

  /** emplace: an entry that is there stays. */
  function Emplace(h: Headers, f: Field): Headers
  {
    if CaseKey(f.name) in h then h else h[CaseKey(f.name) := f]
  }

  function GetHeader(h: Headers, name: string): Option<string>
  {
    if CaseKey(name) in h then Some(h[CaseKey(name)].value) else None
  }

  // ----------------------------------------------- the decoder as a step function

  /** What the bytes s hold as a request line; size is its length with the CRLF. */
  datatype RequestLine =
    | PartOfLine
    | Junk
    | BadVersion
    | Line(requestMethod: Method, uri: string, version: Version, size: nat)

  function ReadLine(s: string): (l: RequestLine)
    ensures l.Line? ==> 0 < l.size <= |s|
  {
    var sp1 := Find(s, ' ', 0);
    if sp1 == |s| then (if |s| >= 7 then Junk else PartOfLine)
    else if MethodOf(s[..sp1]) == None then Junk
    else ReadUri(s, MethodOf(s[..sp1]).value, sp1 + 1)
  }

  function ReadUri(s: string, m: Method, from: nat): (l: RequestLine)
    requires from <= |s|
    ensures !l.Junk? && (l.Line? ==> 0 < l.size <= |s|)
  {
    var sp2 := Find(s, ' ', from);
    if sp2 == |s| then PartOfLine else ReadVersion(s, m, s[from..sp2], sp2 + 1)
  }

  function ReadVersion(s: string, m: Method, uri: string, from: nat): (l: RequestLine)
    requires from <= |s|
    ensures !l.Junk? && (l.Line? ==> 0 < l.size <= |s|)
  {
    var crlf := FindCrlf(s, from);
    if crlf == |s| then PartOfLine
    else if VersionOf(s[from..crlf]) == None then BadVersion
    else Line(m, uri, VersionOf(s[from..crlf]).value, crlf + 2)
  }

  /** What the bytes s hold at the start of a header line. BeyondEnd: the test for CRLF reads past s. */
  datatype HeaderLine = PartOfField | BeyondEnd | EndOfHeaders | Header(field: Field, size: nat)

  function ReadField(s: string): (l: HeaderLine)
    ensures l.Header? ==> 0 < l.size <= |s|
    ensures l.EndOfHeaders? ==> |s| >= 2
  {
    if s == "" || s == "\r" then BeyondEnd
    else if CrlfAt(s, 0) then EndOfHeaders
    else
      var colon := Find(s, ':', 0);
      if colon == |s| then PartOfField
      else
        var crlf := FindCrlf(s, colon + 1);
        if crlf == |s| then PartOfField
        else
          var value := if s[colon + 1] == ' ' then colon + 2 else colon + 1;
          Header(Field(s[..colon], s[value..crlf]), crlf + 2)
  }

  datatype Head = Head(requestMethod: Method, uri: string, version: Version, headers: Headers)

  /** Where decoding stands, with the bytes not yet read. */
  datatype Decoding =
    | AtLine(unread: string)
    | AtFields(head: Head, unread: string)
    | Complete(head: Head, body: string)
    | Dropped
    | Threw
    | OverRead

  /** Decoding as far as the bytes go. */
  function Run(d: Decoding): Decoding
    decreases match d case AtLine(s) => |s| + 1 case AtFields(_, s) => |s| case _ => 0
  {
    match d
    case AtLine(s) =>
      (match ReadLine(s)
       case PartOfLine => d
       case Junk => Dropped
       case BadVersion => Threw
       case Line(m, u, v, size) => Run(AtFields(Head(m, u, v, map[]), s[size..])))
    case AtFields(head, s) =>
      (match ReadField(s)
       case PartOfField => d
       case BeyondEnd => OverRead
       case EndOfHeaders => Complete(head, s[2..])
       case Header(f, size) => Run(AtFields(head.(headers := Emplace(head.headers, f)), s[size..])))
    case _ => d
  }

  /** More bytes arrive. */
  function Feed(d: Decoding, t: string): Decoding
  {
    match d
    case AtLine(s) => AtLine(s + t)
    case AtFields(head, s) => AtFields(head, s + t)
    case Complete(head, body) => Complete(head, body + t)
    case _ => d
  }

  // -------------------------------------------------------- independence of chunks

  lemma FindInPrefix(s: string, t: string, c: char, from: nat)
    requires from <= |s|
    ensures Find(s, c, from) < |s| ==> Find(s + t, c, from) == Find(s, c, from)
    ensures Find(s, c, from) == |s| ==> Find(s + t, c, from) >= |s|
  {
    assert forall k | 0 <= k < |s| :: (s + t)[k] == s[k];
  }

  lemma FindCrlfInPrefix(s: string, t: string, from: nat)
    requires from <= |s|
    ensures FindCrlf(s, from) < |s| ==> FindCrlf(s + t, from) == FindCrlf(s, from)
  {
    assert forall k | 0 <= k < |s| :: (s + t)[k] == s[k];
    if FindCrlf(s, from) < |s| {
      assert CrlfAt(s + t, FindCrlf(s, from));
      assert forall k | from <= k < FindCrlf(s, from) :: CrlfAt(s + t, k) == CrlfAt(s, k);
    }
  }

  lemma ReadVersionInPrefix(s: string, t: string, m: Method, uri: string, from: nat)
    requires from <= |s|
    ensures ReadVersion(s, m, uri, from) != PartOfLine ==>
              ReadVersion(s + t, m, uri, from) == ReadVersion(s, m, uri, from)
  {
    hide VersionOf;
    FindCrlfInPrefix(s, t, from);
    var crlf := FindCrlf(s, from);
    assert (s + t)[from..crlf] == s[from..crlf];
  }

  lemma ReadUriInPrefix(s: string, t: string, m: Method, from: nat)
    requires from <= |s|
    ensures ReadUri(s, m, from) != PartOfLine ==> ReadUri(s + t, m, from) == ReadUri(s, m, from)
  {
    hide ReadVersion;
    FindInPrefix(s, t, ' ', from);
    var sp2 := Find(s, ' ', from);
    if sp2 < |s| {
      assert (s + t)[from..sp2] == s[from..sp2];
      ReadVersionInPrefix(s, t, m, s[from..sp2], sp2 + 1);
    }
  }

  /** A line that is there reads the same whatever follows it. */
  lemma ReadLineInPrefix(s: string, t: string)
    ensures ReadLine(s).Line? || ReadLine(s).BadVersion? ==> ReadLine(s + t) == ReadLine(s)
  {
    hide MethodOf, ReadUri;
    FindInPrefix(s, t, ' ', 0);
    var sp1 := Find(s, ' ', 0);
    assert (s + t)[..sp1] == s[..sp1];
    if sp1 < |s| && MethodOf(s[..sp1]) != None {
      ReadUriInPrefix(s, t, MethodOf(s[..sp1]).value, sp1 + 1);
    }
  }

  /** The longest method name has seven letters. */
  lemma MethodLength(s: string)
    requires MethodOf(s) != None
    ensures |s| <= 7 && (|s| == 7 ==> s == "OPTIONS")
  {
  }

  /** Junk stays junk whatever follows it, except the seven letters of OPTIONS. */
  lemma JunkInPrefix(s: string, t: string)
    requires ReadLine(s).Junk? && s != "OPTIONS"
    ensures ReadLine(s + t).Junk?
  {
    hide MethodOf, ReadUri;
    var sp1 := Find(s, ' ', 0);
    FindInPrefix(s, t, ' ', 0);
    if sp1 < |s| {
      assert (s + t)[..sp1] == s[..sp1];
    } else {
      var at := Find(s + t, ' ', 0);
      assert (s + t)[..|s|] == s;
      if at < |s + t| && MethodOf((s + t)[..at]) != None {
        MethodLength((s + t)[..at]);
      }
    }
  }

  lemma ReadFieldInPrefix(s: string, t: string)
    ensures ReadField(s).Header? || ReadField(s).EndOfHeaders? ==> ReadField(s + t) == ReadField(s)
  {
    if |s| >= 2 {
      FindInPrefix(s, t, ':', 0);
      var colon := Find(s, ':', 0);
      if colon < |s| {
        assert (s + t)[..colon] == s[..colon];
        FindCrlfInPrefix(s, t, colon + 1);
        var crlf := FindCrlf(s, colon + 1);
        if crlf < |s| {
          assert (s + t)[colon + 1..crlf] == s[colon + 1..crlf];
          assert colon + 2 <= crlf ==> (s + t)[colon + 2..crlf] == s[colon + 2..crlf];
        }
      }
    }
  }

  /** Decoding what there is and then the rest is decoding the whole, unless a call dropped or over-read. */
  lemma {:induction false} RunThenFeed(d: Decoding, t: string)
    requires Run(d) != Dropped && Run(d) != OverRead
    ensures Run(Feed(Run(d), t)) == Run(Feed(d, t))
    decreases match d case AtLine(s) => |s| + 1 case AtFields(_, s) => |s| case _ => 0
  {
    hide ReadLine, ReadField, Emplace;
    match d
    case AtLine(s) =>
      ReadLineInPrefix(s, t);
      match ReadLine(s) {
        case Line(m, u, v, size) =>
          var rest := AtFields(Head(m, u, v, map[]), s[size..]);
          RunThenFeed(rest, t);
          assert (s + t)[size..] == s[size..] + t;
        case _ =>
      }
    case AtFields(head, s) =>
      ReadFieldInPrefix(s, t);
      match ReadField(s) {
        case Header(f, size) =>
          var rest := AtFields(head.(headers := Emplace(head.headers, f)), s[size..]);
          RunThenFeed(rest, t);
          assert (s + t)[size..] == s[size..] + t;
        case EndOfHeaders =>
          assert (s + t)[2..] == s[2..] + t;
        case _ =>
      }
    case _ =>
  }

  lemma FieldsAreKept(head: Head, s: string)
    ensures Run(AtFields(head, s)) != Dropped
    decreases |s|
  {
    match ReadField(s)
    case Header(f, size) => FieldsAreKept(head.(headers := Emplace(head.headers, f)), s[size..]);
    case _ =>
  }

  /** Bytes that are dropped though the text they begin is not junk: the name OPTIONS cut off from its space. */
  lemma DroppedPrefix(s: string, t: string)
    requires Run(AtLine(s + t)) != Dropped
    ensures Run(AtLine(s)) == Dropped <==> s == "OPTIONS"
  {
    hide ReadField;
    if ReadLine(s).Junk? && s != "OPTIONS" {
      JunkInPrefix(s, t);
    }
    match ReadLine(s)
    case Line(m, u, v, size) => FieldsAreKept(Head(m, u, v, map[]), s[size..]);
    case _ =>
  }

  // ------------------------------------------------------------------ the decoder

  datatype HttpReq = HttpReq(
    requestMethod: Method, uri: string, version: Version, headers: Headers, body: string, isBodyTruncated: bool)

  const EMPTY := HttpReq(GET, "", Http10, map[], "", false)

  /** The request handed out for a head and the bytes that had arrived with its end. */
  function Delivered(head: Head, body: string, limit: nat): HttpReq
  {
    HttpReq(head.requestMethod, head.uri, head.version, head.headers,
            if |body| <= limit then body else body[..limit], false)
  }

  /** The body handed out is the front of what had arrived: all of it within the limit, and limit bytes beyond. */
  lemma DeliveredBody(head: Head, body: string, limit: nat)
    ensures var r := Delivered(head, body, limit);
            && r.body <= body && |r.body| <= limit && (|r.body| < limit ==> r.body == body)
            && r.requestMethod == head.requestMethod && r.uri == head.uri && r.version == head.version
            && r.headers == head.headers
  {
  }

  /** The flag tells whether the body was cut exactly when it was not cut: nothing ever sets it. */
  lemma TruncationFlag(head: Head, body: string, limit: nat)
    ensures (Delivered(head, body, limit).isBodyTruncated <==> Delivered(head, body, limit).body != body)
            <==> |body| <= limit
  {
  }

  datatype State = ExpectRequestLine | ExpectHeaders | ExpectBody | ParseFinished

  /** A call of Decode hands out a request, or nothing, or lets the exception of version_map.at through. */
  datatype Outcome = NoRequest | Exception | Request(req: HttpReq)

  function OutcomeOf(d: Decoding, limit: nat): Outcome
  {
    if d.Complete? then Request(Delivered(d.head, d.body, limit)) else if d.Threw? then Exception else NoRequest
  }

  /** The end of the search for a complete header line: the first CRLF after the first colon. */
  function LineEnd(s: string): (i: nat)
    ensures i <= |s|
  {
    var colon := Find(s, ':', 0);
    if colon == |s| then |s| else FindCrlf(s, colon + 1)
  }

  /** What one turn of the loop over the header lines does. */
  lemma RunFields(head: Head, s: string)
    requires Run(AtFields(head, s)) != OverRead
    ensures s != "" && (s[0] == '\r' ==> |s| >= 2)
    ensures s[0] == '\r' && s[1] == '\n' ==> Run(AtFields(head, s)) == Complete(head, s[2..])
    ensures !(s[0] == '\r' && s[1] == '\n') && LineEnd(s) == |s| ==> Run(AtFields(head, s)) == AtFields(head, s)
    ensures !(s[0] == '\r' && s[1] == '\n') && LineEnd(s) < |s| ==>
              && ReadField(s).Header?
              && Run(AtFields(head, s))
                 == Run(AtFields(head.(headers := Emplace(head.headers, ReadField(s).field)), s[ReadField(s).size..]))
  {
    assert s != "";
    assert |s| == 1 ==> s == [s[0]];
  }

  class HttpReqDecoder {
    const buffer: BaseBuffer<char>
    var state: State
    var req: HttpReq
    var bodyMaxBytes: nat

    ghost predicate Valid()
      reads this, buffer
    {
      && buffer.Valid() && !req.isBodyTruncated
      && (state != ParseFinished ==> req.body == "")
      && (state == ExpectRequestLine ==> req.headers == map[])
    }

    function HeadSoFar(): Head
      reads this
    {
      Head(req.requestMethod, req.uri, req.version, req.headers)
    }

    /** Where the decoder stands between two calls of Decode. */
    ghost function Standing(): Decoding
      requires Valid() && state != ParseFinished
      reads this, buffer, buffer.buffer
    {
      if state == ExpectRequestLine then AtLine(buffer.Contents())
      else if state == ExpectHeaders then AtFields(HeadSoFar(), buffer.Contents())
      else Complete(HeadSoFar(), buffer.Contents())
    }

    constructor (buffer: BaseBuffer<char>)
      requires buffer.Valid()
      ensures Valid() && this.buffer == buffer && bodyMaxBytes == 2097152
      ensures state == ExpectRequestLine
    {
      this.buffer := buffer;
      state, req, bodyMaxBytes := ExpectRequestLine, EMPTY, 2 * 1024 * 1024;
    }

    method SetBodyMaxBytes(n: nat)
      requires Valid()
      modifies `bodyMaxBytes
      ensures Valid() && bodyMaxBytes == n
    {
      bodyMaxBytes := n;
    }

    /** The request is filled as parts are found; thrown stands for the exception of an unknown version. */
    method ParseRequestLine() returns (ok: bool, thrown: bool)
      requires Valid() && state == ExpectRequestLine
      modifies `state, `req, buffer`readIdx, buffer`writeIdx
      ensures Valid() && (ok ==> state == ExpectHeaders)
      ensures var s := old(buffer.Contents());
              match ReadLine(s)
              case PartOfLine => !ok && !thrown && state == ExpectRequestLine && buffer.Contents() == s
              case Junk => !ok && !thrown && state == ExpectRequestLine && buffer.Contents() == ""
              case BadVersion => !ok && thrown && state == ExpectRequestLine && buffer.Contents() == s
              case Line(m, u, v, size) =>
                ok && !thrown && HeadSoFar() == Head(m, u, v, map[]) && buffer.Contents() == s[size..]
    {
      hide MethodOf, ReadVersion, Find;
      ok, thrown := false, false;
      var s := buffer.ToStringView();
      var sp1 := Find(s, ' ', 0);
      if sp1 == |s| {
        if |s| >= 7 {
          buffer.DropAllBytes();
        }
        return;
      }
      var name := MethodOf(s[..sp1]);
      if name == None {
        buffer.DropAllBytes();
        return;
      }
      req := req.(requestMethod := name.value);
      var sp2 := Find(s, ' ', sp1 + 1);
      if sp2 == |s| {
        return;
      }
      req := req.(uri := s[sp1 + 1..sp2]);
      ok, thrown := ParseVersion(s, sp2 + 1);
    }

    /** The last part of the request line; when it is there the line leaves the buffer. */
    method ParseVersion(s: string, from: nat) returns (ok: bool, thrown: bool)
      requires Valid() && state == ExpectRequestLine && s == buffer.Contents() && from <= |s|
      modifies `state, `req, buffer`readIdx
      ensures Valid() && (ok ==> state == ExpectHeaders)
      ensures match ReadVersion(s, old(req.requestMethod), old(req.uri), from)
              case PartOfLine => !ok && !thrown && state == ExpectRequestLine && buffer.Contents() == s
              case BadVersion => !ok && thrown && state == ExpectRequestLine && buffer.Contents() == s
              case Junk => false
              case Line(m, u, v, size) =>
                ok && !thrown && HeadSoFar() == Head(m, u, v, map[]) && buffer.Contents() == s[size..]
    {
      hide VersionOf, FindCrlf;
      ok, thrown := false, false;
      var crlf := FindCrlf(s, from);
      if crlf == |s| {
        return;
      }
      var version := VersionOf(s[from..crlf]);
      if version == None {
        thrown := true;
        return;
      }
      req := req.(version := version.value);
      buffer.DropBytesUntil(buffer.readIdx + crlf + 2);
      state := ExpectHeaders;
      ok := true;
    }

    /** The end of the loop over the header lines: the line s[..crlf] goes into the headers and out of the buffer. */
    method TakeField(s: string, colon: nat, crlf: nat)
      requires Valid() && state == ExpectHeaders && s == buffer.Contents()
      requires ReadField(s).Header? && colon == Find(s, ':', 0) && crlf == FindCrlf(s, colon + 1)
      modifies `req, buffer`readIdx
      ensures Valid() && buffer.Contents() == s[ReadField(s).size..]
      ensures HeadSoFar() == old(HeadSoFar()).(headers := Emplace(old(req.headers), ReadField(s).field))
    {
      hide CaseKey, Emplace, Find, FindCrlf;
      var value := if s[colon + 1] == ' ' then colon + 2 else colon + 1;
      req := req.(headers := Emplace(req.headers, Field(s[..colon], s[value..crlf])));
      buffer.DropBytesUntil(buffer.readIdx + crlf + 2);
    }

    /** The loop over the header lines; no line may begin so near the end that the test for CRLF reads past it. */
    method ParseHeaders() returns (ok: bool)
      requires Valid() && state == ExpectHeaders && Run(Standing()) != OverRead
      modifies `state, `req, buffer`readIdx, buffer`writeIdx
      ensures Valid() && state == (if ok then ExpectBody else ExpectHeaders)
      ensures Standing() == Run(old(Standing()))
    {
      hide CaseKey, Emplace, Run, Find, FindCrlf, ReadField;
      while true
        invariant Valid() && state == ExpectHeaders && Run(Standing()) == old(Run(Standing()))
        decreases |buffer.Contents()|
      {
        var s := buffer.ToStringView();
        RunFields(HeadSoFar(), s);
        if s[0] == '\r' && s[1] == '\n' {
          break;
        }
        var colon := Find(s, ':', 0);
        if colon == |s| {
          return false;
        }
        var crlf := FindCrlf(s, colon + 1);
        if crlf == |s| {
          return false;
        }
        TakeField(s, colon, crlf);
      }
      buffer.DropBytes(2);
      state := ExpectBody;
      return true;
    }

    /** Everything that is there is the body, cut at the limit; the rest is dropped. */
    method ParseBody()
      requires Valid() && state == ExpectBody
      modifies `state, `req, buffer`readIdx, buffer`writeIdx
      ensures Valid() && state == ParseFinished && buffer.Contents() == ""
      ensures req == Delivered(old(HeadSoFar()), old(buffer.Contents()), bodyMaxBytes)
    {
      var readable := buffer.ReadableBytes();
      var maxSize := if bodyMaxBytes < readable then bodyMaxBytes else readable;
      req := req.(isBodyTruncated := req.isBodyTruncated || maxSize > bodyMaxBytes);
      var s := buffer.ToStringView();
      req := req.(body := s[..maxSize]);
      state := ParseFinished;
      buffer.DropAllBytes();
    }

    /** One call decodes as far as the bytes go. */
    method Decode() returns (out: Outcome)
      requires Valid() && (state == ExpectRequestLine || state == ExpectHeaders) && Run(Standing()) != OverRead
      modifies `state, `req, buffer`readIdx, buffer`writeIdx
      ensures Valid() && (state == ExpectRequestLine || state == ExpectHeaders)
      ensures var d := Run(old(Standing()));
              && out == OutcomeOf(d, bodyMaxBytes)
              && Standing() == if d.Complete? || d.Dropped? then AtLine("") else if d.Threw? then old(Standing()) else d
    {
      hide ReadLine, ReadField;
      while true
        invariant Valid()
        invariant state != ParseFinished ==> Run(Standing()) == Run(old(Standing()))
        invariant state == ParseFinished ==>
                    Run(old(Standing())).Complete? && buffer.Contents() == "" &&
                    req == Delivered(Run(old(Standing())).head, Run(old(Standing())).body, bodyMaxBytes)
        invariant state == ExpectRequestLine ==> Standing() == old(Standing())
        decreases match state
                  case ExpectRequestLine => 3 case ExpectHeaders => 2 case ExpectBody => 1 case ParseFinished => 0
      {
        match state {
          case ExpectRequestLine =>
            var ok, thrown := ParseRequestLine();
            if thrown {
              return Exception;
            }
            if !ok {
              return NoRequest;
            }
          case ExpectHeaders =>
            var ok := ParseHeaders();
            if !ok {
              return NoRequest;
            }
          case ExpectBody =>
            ParseBody();
          case ParseFinished =>
            state := ExpectRequestLine;
            out := Request(req);
            req := req.(uri := "", headers := map[], body := "");
            return;
        }
      }
    }
  }

  // -------------------------------------------------------------- every chunking

  /** One more piece and one more call; before is what arrived until then, of a request not yet complete. */
  method ReceivePiece(decoder: HttpReqDecoder, chunk: string, ghost before: string) returns (out: Outcome)
    requires decoder.Valid() && (decoder.state == ExpectRequestLine || decoder.state == ExpectHeaders)
    requires decoder.Standing() == Run(AtLine(before))
    requires Run(AtLine(before + chunk)) != OverRead
    modifies decoder, decoder.buffer, decoder.buffer.buffer
    ensures decoder.Valid() && (decoder.state == ExpectRequestLine || decoder.state == ExpectHeaders)
    ensures decoder.buffer.buffer == old(decoder.buffer.buffer) || fresh(decoder.buffer.buffer)
    ensures decoder.bodyMaxBytes == old(decoder.bodyMaxBytes)
    ensures var d := Run(AtLine(before + chunk));
            && out == OutcomeOf(d, decoder.bodyMaxBytes)
            && (d.AtLine? || d.AtFields? ==> decoder.Standing() == d)
  {
    hide Run, Emplace;
    RunThenFeed(AtLine(before), chunk);
    decoder.buffer.Append(chunk);
    assert decoder.Standing() == Feed(Run(AtLine(before)), chunk);
    out := decoder.Decode();
  }

  /** How the bytes of one request may be cut: no call over-reads, and OPTIONS never comes without its space. */
  ghost predicate CutWell(chunks: seq<string>)
  {
    forall k {:trigger chunks[..k]} | 0 < k <= |chunks| ::
      Flatten(chunks[..k]) != "OPTIONS" && Run(AtLine(Flatten(chunks[..k]))) != OverRead
  }

  lemma CutAt(chunks: seq<string>, k: nat)
    requires CutWell(chunks) && k <= |chunks|
    ensures k > 0 ==> Flatten(chunks[..k]) != "OPTIONS" && Run(AtLine(Flatten(chunks[..k]))) != OverRead
  {
  }

  /** Nothing is lost after k pieces; what has been settled by then stays. */
  lemma AfterPieces(chunks: seq<string>, k: nat)
    requires CutWell(chunks) && Run(AtLine(Flatten(chunks))) != Dropped && k <= |chunks|
    ensures var d := Run(AtLine(Flatten(chunks[..k])));
            var whole := Run(AtLine(Flatten(chunks)));
            && d != Dropped && d != OverRead
            && (d.Threw? ==> whole == Threw)
            && (d.Complete? ==>
                  whole.Complete? && d.head == whole.head && d.body <= whole.body
                  && |whole.body| - |d.body| == |Flatten(chunks)| - |Flatten(chunks[..k])|)
  {
    hide Run, Flatten, CutWell;
    FlattenPrefix(chunks, k);
    assert k > 0 ==> Flatten(chunks[..k]) != "OPTIONS" && Run(AtLine(Flatten(chunks[..k]))) != OverRead by {
      CutAt(chunks, k);
    }
    assert k == 0 ==> Flatten(chunks[..k]) == "" by { NoPieces(chunks); }
    var arrived := Flatten(chunks[..k]);
    var rest := Flatten(chunks)[|arrived|..];
    assert Flatten(chunks) == arrived + rest;
    DroppedPrefix(arrived, rest);
    RunNothing();
    RunThenFeed(AtLine(arrived), rest);
    if Run(AtLine(arrived)).Complete? || Run(AtLine(arrived)).Threw? {
      RunStopped(Run(AtLine(arrived)), rest);
    }
  }

  /**
   * Wherever the bytes are cut, the calls of Decode come to the request line and the headers that one call
   * finds in all of them. The body is what had arrived with the end of the headers, cut at the limit.
   */
  method ReceiveRequest(chunks: seq<string>, limit: nat) returns (out: Outcome, used: nat)
    requires CutWell(chunks) && Run(AtLine(Flatten(chunks))) != Dropped
    ensures used <= |chunks|
    ensures var whole := Run(AtLine(Flatten(chunks)));
            && out.Request? == whole.Complete? && out.Exception? == whole.Threw?
            && (whole.Complete? ==>
                  var first := Run(AtLine(Flatten(chunks[..used])));
                  && first.Complete? && first.body <= whole.body
                  && |whole.body| - |first.body| == |Flatten(chunks)| - |Flatten(chunks[..used])|
                  && out == Request(Delivered(whole.head, first.body, limit)))
    ensures forall k: nat {:trigger chunks[..k]} | k < used :: !Run(AtLine(Flatten(chunks[..k]))).Complete?
  {
    hide Run, Delivered, Flatten, CutWell;
    var buffer := new BaseBuffer(1024);
    var decoder := new HttpReqDecoder(buffer);
    decoder.SetBodyMaxBytes(limit);
    used := 0;
    out := NoRequest;
    ghost var arrived := "";
    RunNothing();
    assert Flatten(chunks[..0]) == "" by { NoPieces(chunks); }
    while used < |chunks| && out == NoRequest
      invariant used <= |chunks| && arrived == Flatten(chunks[..used])
      invariant decoder.buffer == buffer && decoder.Valid() && decoder.bodyMaxBytes == limit
      invariant decoder.state == ExpectRequestLine || decoder.state == ExpectHeaders
      invariant fresh(decoder) && fresh(buffer) && fresh(buffer.buffer)
      invariant out == OutcomeOf(Run(AtLine(arrived)), limit)
      invariant out == NoRequest ==> decoder.Standing() == Run(AtLine(arrived))
      invariant forall k: nat {:trigger chunks[..k]} | k < used :: !Run(AtLine(Flatten(chunks[..k]))).Complete?
    {
      FlattenNext(chunks, used);
      AfterPieces(chunks, used + 1);
      out := ReceivePiece(decoder, chunks[used], arrived);
      arrived := arrived + chunks[used];
      used := used + 1;
    }
    AfterPieces(chunks, used);
    assert used == |chunks| ==> chunks[..used] == chunks;
  }

  lemma NoPieces(chunks: seq<string>)
    ensures Flatten(chunks[..0]) == ""
  {
  }

  lemma RunNothing()
    ensures Run(AtLine("")) == AtLine("")
  {
  }

  lemma RunStopped(d: Decoding, t: string)
    requires d.Complete? || d.Threw?
    ensures Run(Feed(d, t)) == Feed(d, t)
  {
  }

  // ---------------------------------------------------------------- the wire text

  function MethodText(m: Method): string
  {
    match m
    case OPTIONS => "OPTIONS"
    case GET => "GET"
    case HEAD => "HEAD"
    case POST => "POST"
    case DELETE => "DELETE"
    case TRACE => "TRACE"
  }

  function VersionText(v: Version): string
  {
    match v case Http10 => "HTTP/1.0" case Http11 => "HTTP/1.1"
  }

  /** A header line, with or without the optional space of section 4.2 of RFC 2616. */
  function FieldText(f: Field, spaced: bool): string
  {
    f.name + ":" + (if spaced then " " else "") + f.value + "\r\n"
  }

  ghost predicate WellFormedField(f: Field, spaced: bool)
  {
    && ':' !in f.name && !CrlfAt(f.name, 0)
    && (forall k | 0 <= k < |f.value| :: !CrlfAt(f.value, k))
    && (spaced || f.value == "" || f.value[0] != ' ')
  }

  /** Header lines; spaced says for each of them whether it has the space. */
  function FieldsText(fields: seq<Field>, spaced: seq<bool>): string
    requires |fields| == |spaced|
  {
    if fields == [] then "" else FieldText(fields[0], spaced[0]) + FieldsText(fields[1..], spaced[1..])
  }

  ghost predicate WellFormedFields(fields: seq<Field>, spaced: seq<bool>)
  {
    && |fields| == |spaced|
    && forall i | 0 <= i < |fields| :: WellFormedField(fields[i], spaced[i])
  }

  function EmplaceAll(h: Headers, fields: seq<Field>): Headers
    decreases |fields|
  {
    if fields == [] then h else EmplaceAll(Emplace(h, fields[0]), fields[1..])
  }

  /** A request as it is written on the wire. */
  datatype Wire = Wire(
    requestMethod: Method, uri: string, version: Version, fields: seq<Field>, spaced: seq<bool>, body: string)

  ghost predicate WellFormed(w: Wire)
  {
    ' ' !in w.uri && WellFormedFields(w.fields, w.spaced)
  }

  /** Request-Line and header lines of section 5 of RFC 2616, and the body. */
  function RequestText(w: Wire): string
    requires |w.fields| == |w.spaced|
  {
    LineText(w.requestMethod, w.uri, w.version) + (FieldsText(w.fields, w.spaced) + ("\r\n" + w.body))
  }

  function HeadOf(w: Wire): Head
  {
    Head(w.requestMethod, w.uri, w.version, EmplaceAll(map[], w.fields))
  }

  function LineText(m: Method, uri: string, v: Version): string
  {
    MethodText(m) + " " + uri + " " + VersionText(v) + "\r\n"
  }

  lemma NamesReadBack(m: Method, v: Version)
    ensures MethodOf(MethodText(m)) == Some(m) && ' ' !in MethodText(m)
    ensures VersionOf(VersionText(v)) == Some(v) && '\r' !in VersionText(v)
  {
  }

  lemma FindAfter(a: string, c: char, b: string, from: nat)
    requires from <= |a| && forall k | from <= k < |a| :: a[k] != c
    ensures Find(a + [c] + b, c, from) == |a|
  {
    assert (a + [c] + b)[|a|] == c;
    assert forall k | 0 <= k < |a| :: (a + [c] + b)[k] == a[k];
  }

  lemma FindCrlfAfter(a: string, b: string, from: nat)
    requires from <= |a| && forall k | from <= k < |a| :: !CrlfAt(a, k)
    ensures FindCrlf(a + "\r\n" + b, from) == |a|
  {
    var s := a + "\r\n" + b;
    assert CrlfAt(s, |a|);
    assert forall k | 0 <= k < |a| :: s[k] == a[k];
    assert forall k | from <= k < |a| :: CrlfAt(s, k) ==> CrlfAt(a, k);
  }

  lemma VersionReadsBack(a: string, m: Method, uri: string, v: Version, rest: string)
    ensures ReadVersion(a + VersionText(v) + "\r\n" + rest, m, uri, |a|) == Line(m, uri, v, |a + VersionText(v)| + 2)
  {
    hide VersionOf, VersionText;
    NamesReadBack(m, v);
    FindCrlfAfter(a + VersionText(v), rest, |a|);
    assert (a + VersionText(v) + "\r\n" + rest)[|a|..|a + VersionText(v)|] == VersionText(v);
  }

  lemma UriReadsBack(a: string, m: Method, uri: string, rest: string)
    requires ' ' !in uri
    ensures ReadUri(a + uri + " " + rest, m, |a|) == ReadVersion(a + uri + " " + rest, m, uri, |a + uri| + 1)
  {
    hide ReadVersion;
    FindAfter(a + uri, ' ', rest, |a|);
    assert (a + uri + " " + rest)[|a|..|a + uri|] == uri;
  }

  lemma LineReadsBack(m: Method, uri: string, v: Version, rest: string)
    requires ' ' !in uri
    ensures ReadLine(LineText(m, uri, v) + rest) == Line(m, uri, v, |LineText(m, uri, v)|)
  {
    hide MethodOf, MethodText, VersionText, ReadUri, ReadVersion;
    NamesReadBack(m, v);
    var name, version := MethodText(m), VersionText(v) + "\r\n" + rest;
    var s := LineText(m, uri, v) + rest;
    assert s == name + " " + (uri + " " + version);
    FindAfter(name, ' ', uri + " " + version, 0);
    assert s[..|name|] == name;
    assert s == name + " " + uri + " " + version;
    UriReadsBack(name + " ", m, uri, version);
    assert s == (name + " " + uri + " ") + VersionText(v) + "\r\n" + rest;
    VersionReadsBack(name + " " + uri + " ", m, uri, v, rest);
  }

  /** Between the colon and the end of a well-formed line there is no CRLF. */
  lemma NoCrlfInField(name: string, sp: string, value: string)
    requires sp == "" || sp == " "
    requires forall k | 0 <= k < |value| :: !CrlfAt(value, k)
    ensures var a := name + ":" + sp + value;
            forall k | |name| + 1 <= k < |a| :: !CrlfAt(a, k)
  {
    var a, n := name + ":" + sp + value, |name| + 1 + |sp|;
    assert forall k | n <= k < |a| :: a[k] == value[k - n];
    forall k | |name| + 1 <= k < |a|
      ensures !CrlfAt(a, k)
    {
      if k >= n {
        assert !CrlfAt(value, k - n);
      }
    }
  }

  lemma NameIsNoEnd(name: string, rest: string)
    requires ':' !in name && !CrlfAt(name, 0)
    ensures !CrlfAt(name + ":" + rest, 0)
  {
    assert |name| >= 2 ==> (name + ":" + rest)[1] == name[1];
  }

  lemma Middle(a: string, b: string, c: string)
    ensures (a + b + c)[|a|..|a| + |b|] == b
  {
  }

  lemma FieldReadsBack(f: Field, spaced: bool, rest: string)
    requires WellFormedField(f, spaced)
    ensures ReadField(FieldText(f, spaced) + rest) == Header(f, |FieldText(f, spaced)|)
  {
    hide Find, FindCrlf, CrlfAt;
    var s := FieldText(f, spaced) + rest;
    var sp := if spaced then " " else "";
    var a, tail := f.name + ":" + sp + f.value, sp + f.value + "\r\n" + rest;
    var n := |f.name|;
    assert s == f.name + ":" + tail;
    FindAfter(f.name, ':', tail, 0);
    assert s == a + "\r\n" + rest;
    NoCrlfInField(f.name, sp, f.value);
    FindCrlfAfter(a, rest, n + 1);
    assert s[..n] == f.name;
    assert s == (f.name + ":" + sp) + f.value + ("\r\n" + rest);
    Middle(f.name + ":" + sp, f.value, "\r\n" + rest);
    NameIsNoEnd(f.name, tail);
    assert (s[n + 1] == ' ') == spaced;
  }

  lemma {:induction false} FieldsReadBack(head: Head, fields: seq<Field>, spaced: seq<bool>, body: string)
    requires WellFormedFields(fields, spaced)
    ensures Run(AtFields(head, FieldsText(fields, spaced) + ("\r\n" + body)))
            == Complete(head.(headers := EmplaceAll(head.headers, fields)), body)
    decreases |fields|
  {
    hide ReadField, FieldText, WellFormedField, Emplace;
    if fields == [] {
      var end := "\r\n" + body;
      assert FieldsText(fields, spaced) + end == end && end[2..] == body;
      EndReadsBack(body);
    } else {
      var rest := FieldsText(fields[1..], spaced[1..]) + ("\r\n" + body);
      assert FieldsText(fields, spaced) + ("\r\n" + body) == FieldText(fields[0], spaced[0]) + rest;
      FieldReadsBack(fields[0], spaced[0], rest);
      FieldsReadBack(head.(headers := Emplace(head.headers, fields[0])), fields[1..], spaced[1..], body);
    }
  }

  lemma EndReadsBack(body: string)
    ensures ReadField("\r\n" + body) == EndOfHeaders
  {
  }

  /** Decoding the wire text of a well-formed request gives back what it was made of. */
  lemma RequestReadsBack(w: Wire)
    requires WellFormed(w)
    ensures Run(AtLine(RequestText(w))) == Complete(HeadOf(w), w.body)
  {
    hide ReadLine, ReadField, LineText, FieldsText;
    var rest := FieldsText(w.fields, w.spaced) + ("\r\n" + w.body);
    LineReadsBack(w.requestMethod, w.uri, w.version, rest);
    FieldsReadBack(Head(w.requestMethod, w.uri, w.version, map[]), w.fields, w.spaced, w.body);
  }

  /** The first field whose name strcasecmp takes for this one. */
  function FirstNamed(fields: seq<Field>, name: string): (i: nat)
    ensures i <= |fields|
    ensures i < |fields| ==> SameName(fields[i].name, name)
    ensures forall k | 0 <= k < i :: !SameName(fields[k].name, name)
  {
    if fields == [] || SameName(fields[0].name, name) then 0 else 1 + FirstNamed(fields[1..], name)
  }

  /** The entry for a name is what was there before, or else the first field of that name in any case. */
  lemma {:induction false} FirstFieldStays(h: Headers, fields: seq<Field>, name: string)
    ensures var key, all, i := CaseKey(name), EmplaceAll(h, fields), FirstNamed(fields, name);
            if key in h then key in all && all[key] == h[key]
            else if i < |fields| then key in all && all[key] == fields[i]
            else key !in all
    decreases |fields|
  {
    hide CaseKey, SameName;
    if fields != [] {
      CaseKeys(fields[0].name, name);
      FirstFieldStays(Emplace(h, fields[0]), fields[1..], name);
    }
  }

  /** Looking a name up finds the first field of that name in any case. */
  lemma FirstNameWins(fields: seq<Field>, name: string)
    ensures var i := FirstNamed(fields, name);
            GetHeader(EmplaceAll(map[], fields), name) == if i < |fields| then Some(fields[i].value) else None
  {
    hide CaseKey, SameName;
    FirstFieldStays(map[], fields, name);
  }

  /** Every entry is a field, under its own name; so no two entries have the same name in different cases. */
  lemma {:induction false} EntriesAreFields(h: Headers, fields: seq<Field>)
    requires forall k | k in h :: CaseKey(h[k].name) == k
    ensures var all := EmplaceAll(h, fields);
            && (forall k | k in all :: CaseKey(all[k].name) == k && ((k in h && all[k] == h[k]) || all[k] in fields))
            && (forall j, k | j in all && k in all && j != k :: !SameName(all[j].name, all[k].name))
    decreases |fields|
  {
    hide CaseKey, SameName;
    if fields != [] {
      EntriesAreFields(Emplace(h, fields[0]), fields[1..]);
      assert forall f | f in fields[1..] :: f in fields;
      assert fields[0] in fields;
    }
    var all := EmplaceAll(h, fields);
    forall j, k | j in all && k in all && j != k
      ensures !SameName(all[j].name, all[k].name)
    {
      CaseKeys(all[j].name, all[k].name);
    }
  }

  /** Of all the prefixes of a well-formed request only one is dropped: OPTIONS cut off from its space. */
  lemma PrefixDropped(w: Wire, k: nat)
    requires WellFormed(w) && k <= |RequestText(w)|
    ensures Run(AtLine(RequestText(w)[..k])) == Dropped <==> w.requestMethod == OPTIONS && k == 7
    ensures RequestText(w)[..k] == "OPTIONS" <==> w.requestMethod == OPTIONS && k == 7
  {
    hide Run, VersionText, FieldsText;
    var s := RequestText(w);
    RequestReadsBack(w);
    assert s[..k] + s[k..] == s;
    DroppedPrefix(s[..k], s[k..]);
    var n := |MethodText(w.requestMethod)|;
    assert s[..n] == MethodText(w.requestMethod) && s[n] == ' ';
    assert k > n ==> s[..k][n] == ' ';
  }

  // ------------------------------------------- well-formed requests in any pieces

  /** k characters of the header lines end where a line starts, or after a lone CR there. */
  ghost predicate AtLineStart(fields: seq<Field>, spaced: seq<bool>, k: nat)
    requires |fields| == |spaced|
    decreases |fields|
  {
    if fields == [] then k <= 1
    else
      var line := FieldText(fields[0], spaced[0]);
      k == 0 || (k == 1 && line[0] == '\r') || (k >= |line| && AtLineStart(fields[1..], spaced[1..], k - |line|))
  }

  /** A proper prefix of a header line is no line, and over-reads only when it is empty or a lone CR. */
  lemma FieldPrefix(f: Field, spaced: bool, rest: string, k: nat)
    requires WellFormedField(f, spaced) && k < |FieldText(f, spaced)|
    ensures ReadField(FieldText(f, spaced)[..k])
            == if k == 0 || (k == 1 && FieldText(f, spaced)[0] == '\r') then BeyondEnd else PartOfField
  {
    hide WellFormedField, FieldText;
    var line := FieldText(f, spaced);
    FieldReadsBack(f, spaced, "");
    ReadFieldInPrefix(line[..k], line[k..]);
    assert line[..k] + line[k..] == line == line + "";
  }

  lemma {:induction false} FieldsOverRead(head: Head, fields: seq<Field>, spaced: seq<bool>, body: string, k: nat)
    requires WellFormedFields(fields, spaced) && k <= |FieldsText(fields, spaced) + ("\r\n" + body)|
    ensures Run(AtFields(head, (FieldsText(fields, spaced) + ("\r\n" + body))[..k])) == OverRead
            <==> AtLineStart(fields, spaced, k)
    decreases |fields|
  {
    hide ReadField, FieldText, WellFormedField, Emplace;
    var text := FieldsText(fields, spaced) + ("\r\n" + body);
    if fields == [] {
      assert text == "\r\n" + body;
      EndPrefix(body, k);
    } else {
      var line := FieldText(fields[0], spaced[0]);
      var rest := FieldsText(fields[1..], spaced[1..]) + ("\r\n" + body);
      assert text == line + rest;
      LineLength(fields[0], spaced[0]);
      if k < |line| {
        FieldPrefix(fields[0], spaced[0], rest, k);
        assert text[..k] == line[..k];
      } else {
        var cut := rest[..k - |line|];
        assert text[..k] == line + cut && (line + cut)[|line|..] == cut;
        FieldReadsBack(fields[0], spaced[0], cut);
        FieldsOverRead(head.(headers := Emplace(head.headers, fields[0])), fields[1..], spaced[1..], body, k - |line|);
      }
    }
  }

  lemma LineLength(f: Field, spaced: bool)
    ensures |FieldText(f, spaced)| >= 3
  {
  }

  lemma EndPrefix(body: string, k: nat)
    requires k <= |"\r\n" + body|
    ensures ReadField(("\r\n" + body)[..k]) == if k <= 1 then BeyondEnd else EndOfHeaders
  {
  }

  /** A prefix of a well-formed request over-reads exactly when it ends where a header line starts, or after a CR there. */
  lemma PrefixOverReads(w: Wire, k: nat)
    requires WellFormed(w) && k <= |RequestText(w)|
    ensures var n := |LineText(w.requestMethod, w.uri, w.version)|;
            Run(AtLine(RequestText(w)[..k])) == OverRead <==> k >= n && AtLineStart(w.fields, w.spaced, k - n)
  {
    hide ReadLine, ReadField, LineText, FieldsText, AtLineStart;
    var line := LineText(w.requestMethod, w.uri, w.version);
    var rest := FieldsText(w.fields, w.spaced) + ("\r\n" + w.body);
    var s := RequestText(w);
    if k < |line| {
      LineReadsBack(w.requestMethod, w.uri, w.version, rest);
      ReadLineInPrefix(s[..k], s[k..]);
      assert s[..k] + s[k..] == s;
    } else {
      var cut := rest[..k - |line|];
      assert s[..k] == line + cut && (line + cut)[|line|..] == cut;
      LineReadsBack(w.requestMethod, w.uri, w.version, cut);
      FieldsOverRead(Head(w.requestMethod, w.uri, w.version, map[]), w.fields, w.spaced, w.body, k - |line|);
    }
  }

  /** The first n characters of a request may be all that has arrived at a call of Decode. */
  ghost predicate MayCut(w: Wire, n: nat)
    requires |w.fields| == |w.spaced|
  {
    var line := |LineText(w.requestMethod, w.uri, w.version)|;
    && !(w.requestMethod == OPTIONS && n == 7)
    && !(n >= line && AtLineStart(w.fields, w.spaced, n - line))
  }

  /** For well-formed requests, how the bytes may be cut is a matter of positions. */
  lemma CutWellPositions(w: Wire, chunks: seq<string>)
    requires WellFormed(w) && Flatten(chunks) == RequestText(w)
    ensures CutWell(chunks) <==>
            forall k {:trigger chunks[..k]} | 0 < k <= |chunks| :: MayCut(w, |Flatten(chunks[..k])|)
  {
    hide Run, RequestText, AtLineStart, Flatten;
    forall k | 0 < k <= |chunks|
      ensures Flatten(chunks[..k]) != "OPTIONS" && Run(AtLine(Flatten(chunks[..k]))) != OverRead
              <==> MayCut(w, |Flatten(chunks[..k])|)
    {
      FlattenPrefix(chunks, k);
      var n := |Flatten(chunks[..k])|;
      assert Flatten(chunks[..k]) == RequestText(w)[..n];
      PrefixDropped(w, n);
      PrefixOverReads(w, n);
    }
  }

  /** Any well-formed request may come in one piece. */
  lemma OnePiece(w: Wire)
    requires WellFormed(w)
    ensures MayCut(w, |RequestText(w)|) && Flatten([RequestText(w)]) == RequestText(w)
    ensures CutWell([RequestText(w)]) && Run(AtLine(Flatten([RequestText(w)]))) != Dropped
  {
    hide Run, LineText, FieldsText, AtLineStart;
    var s := RequestText(w);
    var one := [s];
    assert s[..|s|] == s && one[..0] == [] && one[..1] == one;
    RequestReadsBack(w);
    PrefixDropped(w, |s|);
    PrefixOverReads(w, |s|);
  }

  /** Request line, header lines and the empty line. */
  function HeadLength(w: Wire): nat
    requires |w.fields| == |w.spaced|
  {
    |RequestText(w.(body := ""))|
  }

  lemma HeadThenBody(w: Wire, n: nat)
    requires WellFormed(w) && HeadLength(w) <= n <= |RequestText(w)|
    ensures |RequestText(w)| == HeadLength(w) + |w.body|
    ensures Run(AtLine(RequestText(w)[..n])) == Complete(HeadOf(w), w.body[..n - HeadLength(w)])
  {
    hide Run, LineText, FieldsText, EmplaceAll;
    var shorter := w.(body := w.body[..n - HeadLength(w)]);
    assert RequestText(w)[..n] == RequestText(shorter);
    RequestReadsBack(shorter);
  }

  /**
   * A well-formed request, cut into any pieces that may be cut, is handed out by the call that finds its head
   * complete, with its fields, and with what has arrived of its body, cut at the limit.
   */
  method ReceiveWellFormed(ghost w: Wire, chunks: seq<string>, limit: nat) returns (out: Outcome, used: nat)
    requires WellFormed(w) && Flatten(chunks) == RequestText(w)
    requires forall k {:trigger chunks[..k]} | 0 < k <= |chunks| :: MayCut(w, |Flatten(chunks[..k])|)
    ensures used <= |chunks| && HeadLength(w) <= |Flatten(chunks[..used])| <= |RequestText(w)|
    ensures forall k: nat {:trigger chunks[..k]} | k < used :: |Flatten(chunks[..k])| < HeadLength(w)
    ensures out == Request(Delivered(HeadOf(w), w.body[..|Flatten(chunks[..used])| - HeadLength(w)], limit))
  {
    hide Run, Flatten, RequestText, CutWell, MayCut, Delivered, HeadOf;
    CutWellPositions(w, chunks);
    RequestReadsBack(w);
    RequestLength(w);
    out, used := ReceiveRequest(chunks, limit);
    FlattenPrefix(chunks, used);
    ghost var first := Run(AtLine(Flatten(chunks[..used])));
    assert first.body == w.body[..|first.body|];
    forall k: nat | k < used
      ensures |Flatten(chunks[..k])| < HeadLength(w)
    {
      FlattenPrefix(chunks, k);
      var n := |Flatten(chunks[..k])|;
      assert Flatten(chunks[..k]) == RequestText(w)[..n];
      if n >= HeadLength(w) {
        HeadThenBody(w, n);
      }
    }
  }

  lemma RequestLength(w: Wire)
    requires |w.fields| == |w.spaced|
    ensures |RequestText(w)| == HeadLength(w) + |w.body|
  {
  }
}
