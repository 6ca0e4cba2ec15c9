/** HttpRequestLine: the request line `METHOD SP request-target SP HTTP-version`.

    The line is cut at single spaces.  The method token goes to HttpMethod.from, the
    target gives the path (the text before its first `?`, with `/` read as `/home`) and
    the parameters (the text between its first and second `?`, handed to
    HttpParameterDecoder), and the version token is kept as it is.  HttpMethod.from and
    HttpParameterDecoder.decode are not part of this model: they are the parameters
    `methodFrom` and `decodeQuery`, each of which may fail. */
module HttpRequestLine {
  import opened Wrappers
  import opened JavaStrings

  /** REQUEST_LINE_TOKENS_SIZE */
  const RequestLineTokensSize: nat := 3
  const Space: string := " "
  const QueryMark: char := '?'
  const RootPath: string := "/"
  const HomePath: string := "/home"
  const VersionPrefix: string := "HTTP"

  type Parameters = map<string, string>

  /** A decoded request line; `M` stands for HttpMethod. */
  datatype RequestLine<M> = RequestLine(httpMethod: M, path: string, parameters: Parameters, httpVersion: string)

  /** The four-argument decode: the components are stored as given, with no validation. */
  function FromComponents<M>(httpMethod: M, path: string, parameters: Parameters, httpVersion: string): (r: RequestLine<M>)
    ensures r.httpMethod == httpMethod && r.path == path
    ensures r.parameters == parameters && r.httpVersion == httpVersion
  {
    RequestLine(httpMethod, path, parameters, httpVersion)
  }

  /** getParameters: a copy of the stored parameters. */
  function GetParameters<M>(line: RequestLine<M>): (r: Parameters)
    ensures r.Keys == line.parameters.Keys
    ensures forall k | k in r :: r[k] == line.parameters[k]
  {
    map k | k in line.parameters :: line.parameters[k]
  }

  /** equals: the same method, path, parameters and version. */
  function Equals<M(==)>(a: RequestLine<M>, b: RequestLine<M>): (r: bool)
    ensures r <==> a == b
  {
    && a.httpMethod == b.httpMethod
    && a.path == b.path
    && a.parameters == b.parameters
    && a.httpVersion == b.httpVersion
  }

  /** validateRequestLine's test for logging an error.  The token count is checked first,
      so the version token is only read when there are exactly three; the validation only
      logs, so decode never depends on it. */
  predicate LogsMalformedLine(tokens: seq<string>) {
    |tokens| != RequestLineTokensSize || !StartsWith(tokens[2], VersionPrefix)
  }

  /** decodePath: the target's text before its first `?`, with `/` read as `/home`.  A
      target made of question marks only splits into no piece at all, and reading the
      first one is out of bounds. */
  function DecodePath(target: string): (r: Result<string, DecodeError>)
    ensures r.Failure? <==> |target| > 0 && Only(target, QueryMark)
    ensures r.Failure? ==> r.error == IndexOutOfBounds(0, 0)
    ensures r.Success? && PrefixBefore(target, QueryMark) == RootPath ==> r.value == HomePath
    ensures r.Success? && PrefixBefore(target, QueryMark) != RootPath ==> r.value == PrefixBefore(target, QueryMark)
  {
    assert [QueryMark] == "?";
    SplitSingleCharFirst(target, QueryMark);
    var split := Split(target, [QueryMark]);
    if |split| == 0 then
      Failure(IndexOutOfBounds(0, 0))
    else if split[0] == RootPath then
      Success(HomePath)
    else
      Success(split[0])
  }

  /** decodeParameters: no parameters when the target splits into fewer than two pieces at
      `?`; otherwise the query decoder's reading of the second piece. */
  function DecodeParameters(target: string, decodeQuery: string -> Result<Parameters, DecodeError>): (r: Result<Parameters, DecodeError>)
    ensures QueryMark !in target ==> r == Success(map[])
  {
    var split := Split(target, [QueryMark]);
    assert QueryMark !in target ==> |split| == 1 by {
      if QueryMark !in target {
        RawSplitNoDelimiter(target, [QueryMark]);
      }
    }
    if |split| < 2 then Success(map[]) else decodeQuery(split[1])
  }

  /** decode: the line cut at spaces, then the method, the path, the parameters and the
      version, read in that order; the first of them that is missing or that fails is the
      result.  Tokens after the third are ignored. */
  function Decode<M>(
    requestLine: string,
    methodFrom: string -> Result<M, DecodeError>,
    decodeQuery: string -> Result<Parameters, DecodeError>
  ): (r: Result<RequestLine<M>, DecodeError>)
    ensures |Split(requestLine, Space)| < RequestLineTokensSize ==> r.Failure?
    ensures Split(requestLine, Space) == [] ==> r == Failure(IndexOutOfBounds(0, 0))
    ensures r.Success? ==> r.value.httpVersion == Split(requestLine, Space)[2]
    ensures r.Success? ==> methodFrom(Split(requestLine, Space)[0]) == Success(r.value.httpMethod)
  {
    var tokens := Split(requestLine, Space);
    if |tokens| == 0 then
      Failure(IndexOutOfBounds(0, 0))
    else
      var httpMethod :- methodFrom(tokens[0]);
      if |tokens| == 1 then
        Failure(IndexOutOfBounds(1, 1))
      else
        var path :- DecodePath(tokens[1]);
        var parameters :- DecodeParameters(tokens[1], decodeQuery);
        if |tokens| == 2 then
          Failure(IndexOutOfBounds(2, 2))
        else
          Success(RequestLine(httpMethod, path, parameters, tokens[2]))
  }

  // ---------------------------------------------------------------------------
  // the four-argument decode, getParameters and equals

  /** The four-argument decode and the accessors undo each other: every request line is
      the one built from its own components, and the components come back unchanged. */
  lemma ComponentsRoundTrip<M>(line: RequestLine<M>, httpMethod: M, path: string, parameters: Parameters, httpVersion: string)
    ensures FromComponents(line.httpMethod, line.path, line.parameters, line.httpVersion) == line
    ensures GetParameters(FromComponents(httpMethod, path, parameters, httpVersion)) == parameters
  {
  }

  // ---------------------------------------------------------------------------
  // path and parameters

  /** The path is the text before the first `?`, whatever follows it, with `/` read as
      `/home`; every other path is kept as it is. */
  lemma {:induction false} PathBeforeQuery(path: string, query: string)
    requires QueryMark !in path && path != ""
    ensures DecodePath(path) == Success(if path == RootPath then HomePath else path)
    ensures DecodePath(path + [QueryMark] + query) == DecodePath(path)
  {
    var target := path + [QueryMark] + query;
    PrefixBeforeUnique(path, QueryMark, path);
    assert target[..|path|] == path && target[|path|] == QueryMark;
    PrefixBeforeUnique(target, QueryMark, path);
    assert !Only(path, QueryMark) by {
      assert path[0] != QueryMark;
    }
    assert !Only(target, QueryMark) by {
      assert target[0] == path[0];
    }
  }

  /** The parameters come from the text between the first and the second `?`; what
      follows a second `?` is ignored, and a target ending at its first `?` (or followed
      only by more of them) has none. */
  lemma {:induction false} ParametersBetweenMarks(path: string, rest: string, decodeQuery: string -> Result<Parameters, DecodeError>)
    requires QueryMark !in path
    ensures DecodeParameters(path, decodeQuery) == Success(map[])
    ensures Only(rest, QueryMark) ==> DecodeParameters(path + [QueryMark] + rest, decodeQuery) == Success(map[])
    ensures !Only(rest, QueryMark) ==>
              DecodeParameters(path + [QueryMark] + rest, decodeQuery) == decodeQuery(PrefixBefore(rest, QueryMark))
  {
    RawSplitNoDelimiter(path, [QueryMark]);
    SplitSingleCharSecond(path, QueryMark, rest);
  }

  // ---------------------------------------------------------------------------
  // whole lines

  /** A line of three tokens or more decodes to its first three: the method, the path and
      parameters of the target, and the version as it is, whether or not it starts with
      HTTP, and whatever follows the third token.  The third token may be empty when more
      text follows, as in `GET /  HTTP/1.1`.  The first of the method, the path and the
      parameters that fails is the result. */
  lemma {:induction false} DecodeTokens<M>(
    methodName: string, target: string, version: string, rest: string,
    methodFrom: string -> Result<M, DecodeError>,
    decodeQuery: string -> Result<Parameters, DecodeError>)
    requires ' ' !in methodName && ' ' !in target && ' ' !in version
    requires version != "" || !Only(rest, ' ')
    ensures var r := Decode(methodName + Space + target + Space + version + Space + rest, methodFrom, decodeQuery);
            && (methodFrom(methodName).Failure? ==> r == Failure(methodFrom(methodName).error))
            && (methodFrom(methodName).Success? && DecodePath(target).Failure? ==> r == Failure(DecodePath(target).error))
            && (methodFrom(methodName).Success? && DecodePath(target).Success? && DecodeParameters(target, decodeQuery).Failure? ==>
                  r == Failure(DecodeParameters(target, decodeQuery).error))
            && (methodFrom(methodName).Success? && DecodePath(target).Success? && DecodeParameters(target, decodeQuery).Success? ==>
                  r == Success(RequestLine(methodFrom(methodName).value, DecodePath(target).value,
                                           DecodeParameters(target, decodeQuery).value, version)))
    ensures version != "" ==>
              (Decode(methodName + Space + target + Space + version, methodFrom, decodeQuery)
               == Decode(methodName + Space + target + Space + version + Space + rest, methodFrom, decodeQuery))
  {
    var line := methodName + Space + target + Space + version + Space + rest;
    FirstThreeTokens(methodName, target, version, rest);
    var tokens := Split(line, Space);
    assert tokens[0] == methodName && tokens[1] == target && tokens[2] == version by {
      assert tokens[..3][0] == tokens[0] && tokens[..3][1] == tokens[1] && tokens[..3][2] == tokens[2];
    }
    DecodeByTokens(line, methodFrom, decodeQuery);
    if version != "" {
      DecodeByTokens(methodName + Space + target + Space + version, methodFrom, decodeQuery);
    }
  }

  /** A line of at least three tokens decodes from its first three alone. */
  lemma DecodeByTokens<M>(
    line: string,
    methodFrom: string -> Result<M, DecodeError>,
    decodeQuery: string -> Result<Parameters, DecodeError>)
    requires |Split(line, Space)| >= 3
    ensures var tokens := Split(line, Space);
            var r := Decode(line, methodFrom, decodeQuery);
            && (methodFrom(tokens[0]).Failure? ==> r == Failure(methodFrom(tokens[0]).error))
            && (methodFrom(tokens[0]).Success? && DecodePath(tokens[1]).Failure? ==> r == Failure(DecodePath(tokens[1]).error))
            && (methodFrom(tokens[0]).Success? && DecodePath(tokens[1]).Success? && DecodeParameters(tokens[1], decodeQuery).Failure? ==>
                  r == Failure(DecodeParameters(tokens[1], decodeQuery).error))
            && (methodFrom(tokens[0]).Success? && DecodePath(tokens[1]).Success? && DecodeParameters(tokens[1], decodeQuery).Success? ==>
                  r == Success(RequestLine(methodFrom(tokens[0]).value, DecodePath(tokens[1]).value,
                                           DecodeParameters(tokens[1], decodeQuery).value, tokens[2])))
  {
  }

  /** The first three tokens of such a line are the method, the target and the version. */
  lemma {:induction false} FirstThreeTokens(methodName: string, target: string, version: string, rest: string)
    requires ' ' !in methodName && ' ' !in target && ' ' !in version
    requires version != "" || !Only(rest, ' ')
    ensures var tokens := Split(methodName + Space + target + Space + version + Space + rest, Space);
            |tokens| >= 3 && tokens[..3] == [methodName, target, version]
    ensures version != "" ==> Split(methodName + Space + target + Space + version, Space) == [methodName, target, version]
  {
    var parts := [methodName, target, version];
    assert Space == [' '];
    assert forall i | 0 <= i < |parts| :: Space[0] !in parts[i];
    JoinThree(methodName, target, version, Space);
    if version != "" {
      SplitJoin(parts, Space);
      SplitJoinThen(parts, Space, rest);
    } else {
      SplitJoinThenMore(parts, ' ', rest);
    }
  }

  /** The validation logs a line of exactly three tokens, trailing spaces allowed, when
      its version does not start with HTTP, and every line of more than three tokens, an
      empty third token included. */
  lemma {:induction false} LoggedRequestLines(methodName: string, target: string, version: string, pad: string, rest: string)
    requires ' ' !in methodName && ' ' !in target && ' ' !in version
    ensures version != "" && Only(pad, ' ') ==>
              (LogsMalformedLine(Split(methodName + Space + target + Space + version + pad, Space))
               <==> !StartsWith(version, VersionPrefix))
    ensures !Only(rest, ' ') ==> LogsMalformedLine(Split(methodName + Space + target + Space + version + Space + rest, Space))
  {
    var parts := [methodName, target, version];
    assert Space == [' '];
    assert forall i | 0 <= i < |parts| :: Space[0] !in parts[i];
    JoinThree(methodName, target, version, Space);
    if version != "" && Only(pad, ' ') {
      SplitJoinTrailingRun(parts, ' ', pad);
    }
    if !Only(rest, ' ') {
      SplitJoinThenMore(parts, ' ', rest);
    }
  }

  /** A line of two tokens, trailing spaces allowed, fails: with the method's failure when
      the method is unknown, with the path's or the parameters' failure when those fail,
      and otherwise when the version token is read. */
  lemma {:induction false} DecodeTwoTokens<M>(
    methodName: string, target: string, pad: string,
    methodFrom: string -> Result<M, DecodeError>,
    decodeQuery: string -> Result<Parameters, DecodeError>)
    requires ' ' !in methodName && ' ' !in target && target != "" && Only(pad, ' ')
    ensures Decode(methodName + Space + target + pad, methodFrom, decodeQuery).Failure?
    ensures methodFrom(methodName).Failure? ==>
              Decode(methodName + Space + target + pad, methodFrom, decodeQuery) == Failure(methodFrom(methodName).error)
    ensures methodFrom(methodName).Success? && DecodePath(target).Failure? ==>
              Decode(methodName + Space + target + pad, methodFrom, decodeQuery) == Failure(IndexOutOfBounds(0, 0))
    ensures methodFrom(methodName).Success? && DecodePath(target).Success? && DecodeParameters(target, decodeQuery).Failure? ==>
              Decode(methodName + Space + target + pad, methodFrom, decodeQuery) == Failure(DecodeParameters(target, decodeQuery).error)
    ensures methodFrom(methodName).Success? && DecodePath(target).Success? && DecodeParameters(target, decodeQuery).Success? ==>
              Decode(methodName + Space + target + pad, methodFrom, decodeQuery) == Failure(IndexOutOfBounds(2, 2))
  {
    var parts := [methodName, target];
    assert Space == [' '];
    assert Join(parts, Space) == methodName + Space + target by {
      assert parts[1..] == [target];
    }
    SplitJoinTrailingRun(parts, ' ', pad);
  }

  /** A line of one token, trailing spaces allowed, fails: with the method's failure, or
      when the target is read.  The token is empty only for the empty line. */
  lemma {:induction false} DecodeOneToken<M>(
    methodName: string, pad: string,
    methodFrom: string -> Result<M, DecodeError>,
    decodeQuery: string -> Result<Parameters, DecodeError>)
    requires ' ' !in methodName && Only(pad, ' ') && (methodName != "" || pad == "")
    ensures methodFrom(methodName).Failure? ==>
              Decode(methodName + pad, methodFrom, decodeQuery) == Failure(methodFrom(methodName).error)
    ensures methodFrom(methodName).Success? ==>
              Decode(methodName + pad, methodFrom, decodeQuery) == Failure(IndexOutOfBounds(1, 1))
  {
    if pad == "" {
      assert methodName + pad == methodName;
      RawSplitNoDelimiter(methodName, Space);
    } else {
      assert Space == [' '];
      assert Join([methodName], Space) == methodName;
      SplitJoinTrailingRun([methodName], ' ', pad);
    }
  }

  /** A line of spaces only has no token at all, and reading the method is out of
      bounds. */
  lemma {:induction false} DecodeSpacesOnly<M>(
    line: string,
    methodFrom: string -> Result<M, DecodeError>,
    decodeQuery: string -> Result<Parameters, DecodeError>)
    requires line != "" && Only(line, ' ')
    ensures Decode(line, methodFrom, decodeQuery) == Failure(IndexOutOfBounds(0, 0))
  {
    assert Space == [' '];
    SplitSingleCharFirst(line, ' ');
  }

  /** `GET / HTTP/1.1` is the home page with no parameters. */
  lemma RootRequest<M>(methodFrom: string -> Result<M, DecodeError>, decodeQuery: string -> Result<Parameters, DecodeError>)
    requires methodFrom("GET").Success?
    ensures Decode("GET / HTTP/1.1", methodFrom, decodeQuery)
         == Success(RequestLine(methodFrom("GET").value, HomePath, map[], "HTTP/1.1"))
  {
    PathBeforeQuery(RootPath, "");
    ParametersBetweenMarks(RootPath, "", decodeQuery);
    RootLineTokens();
    DecodeTokens("GET", RootPath, "HTTP/1.1", "", methodFrom, decodeQuery);
  }

  /** The literal facts RootRequest needs, proved apart from it to keep that proof small. */
  lemma RootLineTokens()
    ensures "GET / HTTP/1.1" == "GET" + Space + RootPath + Space + "HTTP/1.1"
    ensures ' ' !in "GET" && ' ' !in RootPath && ' ' !in "HTTP/1.1"
  {
  }

  /** `GET /x?a=1?b FTP extra`: the path stops at the first `?`, the parameters at the
      second, the version is kept although validation would log it, and the fourth token
      is ignored. */
  lemma LenientRequest<M>(methodFrom: string -> Result<M, DecodeError>, decodeQuery: string -> Result<Parameters, DecodeError>)
    requires methodFrom("GET").Success? && decodeQuery("a=1").Success?
    ensures LogsMalformedLine(Split("GET /x?a=1?b FTP extra", Space))
    ensures Decode("GET /x?a=1?b FTP extra", methodFrom, decodeQuery)
         == Success(RequestLine(methodFrom("GET").value, "/x", decodeQuery("a=1").value, "FTP"))
  {
    LenientLineTokens();
    PathBeforeQuery("/x", "a=1?b");
    ParametersBetweenMarks("/x", "a=1?b", decodeQuery);
    DecodeTokens("GET", "/x?a=1?b", "FTP", "extra", methodFrom, decodeQuery);
    SplitJoinThen(["GET", "/x?a=1?b", "FTP"], Space, "extra");
    JoinThree("GET", "/x?a=1?b", "FTP", Space);
  }

  /** The literal facts LenientRequest needs, proved apart from it to keep that proof
      small. */
  lemma LenientLineTokens()
    ensures "GET /x?a=1?b FTP extra" == "GET" + Space + "/x?a=1?b" + Space + "FTP" + Space + "extra"
    ensures ' ' !in "GET" && ' ' !in "/x?a=1?b" && ' ' !in "FTP"
    ensures forall i | 0 <= i < 3 :: Space[0] !in ["GET", "/x?a=1?b", "FTP"][i]
    ensures "/x?a=1?b" == "/x" + [QueryMark] + "a=1?b"
    ensures QueryMark !in "/x" && !Only("a=1?b", QueryMark)
    ensures PrefixBefore("a=1?b", QueryMark) == "a=1"
    ensures !StartsWith("FTP", VersionPrefix)
  {
    assert "a=1?b"[0] != QueryMark;
    PrefixBeforeUnique("a=1?b", QueryMark, "a=1");
  }
}
