/** `fp::formdata_parser`: the parser as the server runs it, over fixed buffers it updates in place. */
module FormdataParser {
  import opened Text
  import opened FormdataHeaders
  import opened FormdataMachine

  /**
   `upload_parse_content_type`: the boundary parameter. The null check of the source cannot fire, so a
   value without "boundary=" is read from offset 8: npos plus the length of "boundary=", wrapped.
   */
  function BoundaryOf(contentType: string): (r: Result<string, Error>)
    ensures r.Ok? ==> r.value != "" && forall i :: 0 <= i < |r.value| ==> r.value[i] !in {' ', ';', CR, LF}
  {
    var semicolon := CSpan(contentType, {';'});
    if semicolon == |contentType| then Err(NoBoundary)
    else if !HasPrefixNoCase("multipart/form-data", contentType) then Err(NotMultipart)
    else
      var start := match Find("boundary=", contentType[semicolon..])
                   case None => 8
                   case Some(i) => semicolon + i + 9;
      var t := contentType[start..];
      var n := CSpan(t, {' ', ';', LF, CR});
      if n == 0 then Err(EmptyBoundary) else Ok(t[..n])
  }

  function ConfigOf(boundary: string, maxHeader: nat, bufSize: nat): Config {
    Config("\r\n--" + boundary, maxHeader, bufSize, ParsePartHeader)
  }

  class Parser {
    const maxHeader: nat
    const boundary: string
    const parseHeader: string -> Result<Header, Error>  // upload_parse_part_header
    const headerAccumulator: array<char>
    const outputBuffer: array<char>

    var params: map<string, string>
    var fieldName: string
    var fieldValue: string
    var contentType: string
    var state: Phase
    var boundaryStart: nat
    var boundaryPos: nat
    var headerPos: nat
    var outputPos: nat

    ghost function Cfg(): Config {
      Config(boundary, maxHeader, outputBuffer.Length, parseHeader)
    }

    ghost predicate InBounds()
      reads this
    {
      && headerPos <= maxHeader && headerAccumulator.Length == maxHeader + 1
      && outputPos < outputBuffer.Length
      && headerAccumulator != outputBuffer
    }

    ghost function Abs(): State
      requires InBounds()
      reads this, headerAccumulator, outputBuffer
    {
      State(state, boundaryStart, boundaryPos, headerAccumulator[..headerPos], outputBuffer[..outputPos],
            fieldName, fieldValue, contentType, params)
    }

    ghost predicate Ok()
      reads this, headerAccumulator, outputBuffer
    {
      InBounds() && Valid(Cfg(), Abs())
    }

    constructor (boundary: string, maxHeader: nat, bufferSize: nat, params: map<string, string>)
      requires 1 <= bufferSize
      requires boundary != "" && forall i :: 0 <= i < |boundary| ==> boundary[i] != CR && boundary[i] != LF
      ensures Ok() && Cfg() == ConfigOf(boundary, maxHeader, bufferSize) && Abs() == Init(params)
      ensures fresh(headerAccumulator) && fresh(outputBuffer)
    {
      this.maxHeader := maxHeader;
      parseHeader := ParsePartHeader;
      this.boundary := "\r\n--" + boundary;
      this.params := params;
      headerAccumulator := new char[maxHeader + 1];
      outputBuffer := new char[bufferSize];
      headerPos, outputPos := 0, 0;
      fieldName, fieldValue, contentType := "", "", "";
      state, boundaryStart, boundaryPos := Seek, 2, 2;
    }

    /** `upload_flush_output_buffer`: only the first buffer of a part is kept. */
    method FlushOutputBuffer()
      requires headerPos <= maxHeader && headerAccumulator.Length == maxHeader + 1
      requires 0 < outputBuffer.Length && outputPos <= outputBuffer.Length && headerAccumulator != outputBuffer
      modifies this`fieldValue, this`outputPos
      ensures InBounds()
      ensures Abs() == Flush(State(state, boundaryStart, boundaryPos, headerAccumulator[..headerPos],
                                   outputBuffer[..old(outputPos)], fieldName, old(fieldValue), contentType, params))
    {
      if outputPos > 0 {
        if fieldValue == "" {
          fieldValue := outputBuffer[..outputPos];
        }
        outputPos := 0;
      }
    }

    method Putc(c: char)
      requires InBounds()
      modifies this`fieldValue, this`outputPos, outputBuffer
      ensures InBounds()
      ensures Abs() == FormdataMachine.Putc(Cfg(), old(Abs()), c)
    {
      ghost var s := Abs();
      outputBuffer[outputPos] := c;
      outputPos := outputPos + 1;
      assert outputBuffer[..outputPos] == s.output + [c];
      if outputPos == outputBuffer.Length {
        FlushOutputBuffer();
      }
    }

    /** The `for` loop that outputs a failed partial match, and the reset of the matcher. */
    method OutputPartialMatch()
      requires Ok() && state.Data?
      modifies this`fieldValue, this`outputPos, this`boundaryStart, this`boundaryPos, outputBuffer
      ensures Ok() && Abs() == Dump(Cfg(), old(Abs()))
    {
      var q := boundaryStart;
      while q != boundaryPos
        invariant boundaryStart <= q <= boundaryPos
        invariant InBounds() && boundaryStart == old(boundaryStart) && boundaryPos == old(boundaryPos)
        invariant PutAll(Cfg(), Abs(), boundary[q..boundaryPos])
               == PutAll(Cfg(), old(Abs()), boundary[boundaryStart..boundaryPos])
        decreases boundaryPos - q
      {
        PutAllStep(Cfg(), Abs(), boundary, q, boundaryPos);
        Putc(boundary[q]);
        q := q + 1;
      }
      PutAllKeeps(Cfg(), old(Abs()), boundary[boundaryStart..boundaryPos]);
      boundaryStart := 0;
      boundaryPos := boundaryStart;
    }

    method FinishPart()
      requires InBounds()
      modifies this`params, this`fieldName, this`fieldValue, this`contentType
      ensures InBounds() && Abs() == FormdataMachine.FinishPart(old(Abs()))
    {
      if fieldName !in params {
        params := params[fieldName := fieldValue];
      }
      fieldName, fieldValue, contentType := "", "", "";
    }

    /** Parses the collected header line; the fields it sets before a throw stay set. */
    method ParseHeaderLine() returns (error: Option<Error>)
      requires Ok() && state.Headers? && headerPos > 0
      modifies this`fieldName, this`contentType, this`headerPos, this`state, headerAccumulator
      ensures Ok() && (Abs(), error) == HeaderLine(Cfg(), old(Abs()))
    {
      headerAccumulator[headerPos] := NUL;
      assert headerAccumulator[..headerPos] == old(headerAccumulator[..headerPos]);
      match parseHeader(headerAccumulator[..headerPos])
      case Ok(h) =>
        match h {
          case FieldName(n) => fieldName := n;
          case ContentType(ct) => contentType := ct;
          case Other =>
        }
        headerPos := 0;
        error := None;
      case Err(e) =>
        if e.EmptyContentType? {
          contentType := "";
        }
        state := Finish;
        error := Some(e);
    }

    method HeaderByte(c: char) returns (error: Option<Error>)
      requires Ok() && state.Headers?
      modifies this, headerAccumulator
      ensures Ok() && (Abs(), error) == StepHeaders(Cfg(), old(Abs()), c)
    {
      error := None;
      if c == LF {
        if headerPos == 0 {
          state := Data;
          outputPos := 0;
        } else {
          error := ParseHeaderLine();
        }
      } else if c != CR {
        if headerPos < maxHeader - 1 {
          headerAccumulator[headerPos] := c;
          headerPos := headerPos + 1;
          assert Abs().header == old(Abs().header) + [c];
        } else {
          state := Finish;
          error := Some(HeaderTooLong);
        }
      }
    }

    /** One pass through the data state; `again` tells the loop to read the same byte once more. */
    method DataByte(c: char) returns (again: bool)
      requires Ok() && state.Data?
      modifies this, outputBuffer
      ensures Ok()
      ensures again ==> state.Data? && boundaryPos == boundaryStart && old(boundaryPos != boundaryStart)
                        && StepData(Cfg(), Abs(), c) == StepData(Cfg(), old(Abs()), c)
      ensures !again ==> Abs() == StepData(Cfg(), old(Abs()), c)
    {
      again := false;
      if Matches(c, boundary[boundaryPos]) {
        boundaryPos := boundaryPos + 1;
      } else {
        if boundaryPos == boundaryStart {
          if c == LF {
            boundaryPos := 2;
            boundaryStart := 1;
          } else {
            Putc(c);
          }
        } else {
          OutputPartialMatch();
          again := true;
        }
      }
      if boundaryPos == |boundary| {
        state := AfterBoundary;
        boundaryPos := boundaryStart;
        FlushOutputBuffer();
        FinishPart();
      }
    }

    method SeekByte(c: char)
      requires Ok() && state.Seek?
      modifies this
      ensures Ok() && Abs() == StepSeek(Cfg(), old(Abs()), c)
    {
      if Matches(c, boundary[boundaryPos]) {
        boundaryPos := boundaryPos + 1;
      } else {
        boundaryPos := boundaryStart;
      }
      if boundaryPos == |boundary| {
        state := AfterBoundary;
        boundaryStart := 0;
        boundaryPos := boundaryStart;
      }
    }

    /** The `switch` of the byte loop. */
    method ProcessByte(c: char) returns (again: bool, error: Option<Error>)
      requires Ok()
      modifies this, headerAccumulator, outputBuffer
      ensures Ok()
      ensures again ==> error.None? && state.Data? && boundaryPos == boundaryStart
                        && old(boundaryPos != boundaryStart)
                        && Step(Cfg(), Abs(), c) == Step(Cfg(), old(Abs()), c)
      ensures !again ==> (Abs(), error) == Step(Cfg(), old(Abs()), c)
    {
      again, error := false, None;
      match state {
        case Seek =>
          SeekByte(c);
        case AfterBoundary =>
          if c == LF {
            state := Headers;
            headerPos := 0;
          } else if c == '-' {
            state := Finish;
          }
        case Headers =>
          error := HeaderByte(c);
        case Data =>
          again := DataByte(c);
        case Finish =>
      }
    }

    /** One pass of the loop at `buf[p]`, as it moves the run over what is left of the buffer. */
    method ProcessAt(buf: string, p: nat) returns (again: bool, error: Option<Error>)
      requires Ok() && p < |buf|
      modifies this, headerAccumulator, outputBuffer
      ensures Ok()
      ensures again ==> error.None? && state.Data? && boundaryPos == boundaryStart
                        && old(boundaryPos != boundaryStart)
                        && Run(Cfg(), Abs(), buf[p..]) == Run(Cfg(), old(Abs()), buf[p..])
      ensures !again && error.None? ==> Run(Cfg(), Abs(), buf[p + 1..]) == Run(Cfg(), old(Abs()), buf[p..])
      ensures error.Some? ==> (Abs(), error) == Run(Cfg(), old(Abs()), buf[p..])
    {
      RunStep(Cfg(), Abs(), buf, p);
      again, error := ProcessByte(buf[p]);
      RunStep(Cfg(), Abs(), buf, p);
    }

    /**
     `upload_process_buf`. The loop runs the byte machine over the buffer, or over the part of it up
     to a throw, and takes at most two iterations a byte.
     */
    method ProcessBuf(buf: string) returns (error: Option<Error>, ghost iterations: nat)
      requires Ok()
      modifies this, headerAccumulator, outputBuffer
      ensures Ok()
      ensures buf == "" ==> Abs() == old(Abs())
                            && error == if state.Finish? then None else Some(MalformedBody)
      ensures buf != "" ==> (Abs(), error) == Run(Cfg(), old(Abs()), buf)
      ensures iterations <= 2 * |buf|
    {
      hide Run, Step;
      iterations := 0;
      if buf == "" {
        return if state.Finish? then None else Some(MalformedBody), 0;
      }
      var p := 0;
      error := None;
      ghost var all := Run(Cfg(), Abs(), buf);
      assert buf[0..] == buf;
      while p != |buf|
        invariant 0 <= p <= |buf| && Ok() && error.None?
        invariant Run(Cfg(), Abs(), buf[p..]) == all
        invariant iterations <= 2 * p + 1
        invariant iterations == 2 * p + 1 ==> p < |buf| && state.Data? && boundaryPos == boundaryStart
        decreases |buf| - p, boundaryPos - boundaryStart
      {
        iterations := iterations + 1;
        var again: bool;
        again, error := ProcessAt(buf, p);
        if error.Some? {
          return;
        }
        if !again {
          p := p + 1;
        }
      }
      RunEnd(Cfg(), Abs(), buf);
    }
  }

  const MAX_HEADER := 512
  const BUFFER_SIZE := 128 * 1024

  /** What `parse_form_data` throws before it reads anything. */
  datatype RequestError = NoContentType | NoContentLength | BadContentLength | BadContentType(error: Error)

  /** The read loop: a read that delivers nothing is not fed, and whatever a chunk throws is swallowed. */
  method FeedAll(p: Parser, chunks: seq<string>)
    requires p.Ok()
    modifies p, p.headerAccumulator, p.outputBuffer
    ensures p.Ok() && p.Abs() == Feed(p.Cfg(), old(p.Abs()), chunks)
  {
    ghost var all := Feed(p.Cfg(), p.Abs(), chunks);
    var i := 0;
    assert chunks[0..] == chunks;
    while i < |chunks|
      invariant 0 <= i <= |chunks| && p.Ok()
      invariant Feed(p.Cfg(), p.Abs(), chunks[i..]) == all
    {
      FeedStep(p.Cfg(), p.Abs(), chunks, i);
      if |chunks[i]| > 0 {
        var error, iterations := p.ProcessBuf(chunks[i]);
      }
      i := i + 1;
    }
  }

  /** `parse_form_data` on CONTENT_TYPE, CONTENT_LENGTH and the chunks that the stream delivers. */
  method ParseFormData(contentType: string, contentLength: string, chunks: seq<string>, params: map<string, string>)
    returns (result: Result<map<string, string>, RequestError>)
    ensures result == Err(NoContentType) <==> contentType == ""
    ensures result == Err(NoContentLength) <==> contentType != "" && contentLength == ""
    ensures result == Err(BadContentLength) <==> contentType != "" && contentLength != "" && LongOf(contentLength) == 0
    ensures contentType != "" && contentLength != "" && LongOf(contentLength) != 0 ==>
              match BoundaryOf(contentType)
              case Err(e) => result == Err(BadContentType(e))
              case Ok(b) =>
                var cfg := ConfigOf(b, MAX_HEADER, BUFFER_SIZE);
                Valid(cfg, Init(params)) && result == Ok(Final(cfg, Init(params), Flatten(chunks)).params)
  {
    if contentType == "" {
      return Err(NoContentType);
    }
    if contentLength == "" {
      return Err(NoContentLength);
    }
    if LongOf(contentLength) == 0 {
      return Err(BadContentLength);
    }
    match BoundaryOf(contentType)
    case Err(e) =>
      result := Err(BadContentType(e));
    case Ok(b) =>
      var p := new Parser(b, MAX_HEADER, BUFFER_SIZE, params);
      FeedAll(p, chunks);
      ChunkIndependence(ConfigOf(b, MAX_HEADER, BUFFER_SIZE), Init(params), chunks);
      result := Ok(p.params);
  }
}
