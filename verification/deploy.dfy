/** `main()` of the deployment script as a pure function of what it reads
    (arguments, file-existence answers, environment, file contents) and of
    the answers of the DKIM signer and of the HTTP client, which are passed
    in as functions. The outcome records the exit status, which step failed,
    and the arguments the signer and the HTTP client were called with. */
module Deploy {
  import opened Wrappers
  import opened Utf8
  import opened Identity
  import opened Signing
  import opened Dispatch

  /** What `main()` reads from outside. `content` is `None` when opening or
      reading the file to deploy raises; `keyText` is `None` when reading the
      private key raises. */
  datatype Inputs = Inputs(
    server: string,
    address: string,
    keyFileExists: bool,
    deployFileExists: bool,
    fileName: string,
    env: Env,
    content: Option<bytes>,
    keyText: Option<string>)

  /** The arguments of the `dkim.sign` call: message, selector, domain and
      private key, as bytes; the names of the headers to sign; and the
      header and body canonicalization algorithms, as bytes. */
  datatype SignCall = SignCall(
    message: bytes,
    selector: bytes,
    domain: bytes,
    privkey: bytes,
    includeHeaders: seq<string>,
    canonicalize: (bytes, bytes))

  /** The arguments of the `requests.post` call. */
  datatype Request = Request(url: string, body: bytes, headers: Headers)

  /** Why the run ended with exit status 1. */
  datatype Failure =
    | InvalidAddress
    | KeyFileMissing
    | DeployFileMissing
    | ReadFailed
    | KeyReadFailed
    | SignFailed
    | MalformedSignature
    | UploadFailed
    | HttpError(status: int)

  /** The exit status, the failure if any, and the calls that were made. */
  datatype Outcome = Outcome(
    exitCode: int,
    failure: Option<Failure>,
    signCall: Option<SignCall>,
    request: Option<Request>)

  /** `dkim.sign(...)` followed by `.decode()`: the signature line, or `None`
      when either raises. */
  type Signer = SignCall -> Option<string>

  /** `requests.post(...)`: the response status, or `None` when it raises. */
  type Poster = Request -> Option<int>

  /** The arguments `main()` passes to `dkim.sign`: only `From` is signed,
      with relaxed canonicalization of both header and body. The selector
      and domain handed to the signer are the bytes of the `From` address on
      either side of its `@`, so the signing domain is the sender's. */
  function SignArgs(address: string, id: SigningIdentity, content: bytes, key: string): (c: SignCall)
    requires id.selector + "@" + id.domain == address
    ensures c.selector + [0x40] + c.domain == Encode(address)
    ensures c.includeHeaders == ["From"]
    ensures c.canonicalize == (Encode("relaxed"), Encode("relaxed"))
    ensures c.message == SignableMessage(address, content)
    ensures c.selector == Encode(id.selector) && c.domain == Encode(id.domain)
    ensures c.privkey == Encode(key)
  {
    EncodeAroundAt(id.selector, id.domain);
    var relaxed := Encode("relaxed");
    SignCall(SignableMessage(address, content), Encode(id.selector), Encode(id.domain), Encode(key), ["From"], (relaxed, relaxed))
  }

  /** One run of `main()`. The checks run in order (address, key file, file
      to deploy) and any failing one ends the run with status 1 before
      anything is signed or sent; a file that cannot be read ends it the same
      way (the exception is not caught); every exception inside the `try` is
      caught and ends it with status 1; a response status of 400 or more ends
      it with status 1; otherwise it ends normally with status 0. The signer
      gets the synthetic message; the HTTP client gets the raw file content. */
  function Run(inp: Inputs, sign: Signer, post: Poster): (o: Outcome)
    ensures o.exitCode == 0 || o.exitCode == 1
    ensures o.exitCode == 0 <==> o.failure.None?
    ensures SplitIdentity(inp.address).None? ==> o == Outcome(1, Some(InvalidAddress), None, None)
    ensures SplitIdentity(inp.address).Some? && !inp.keyFileExists
      ==> o == Outcome(1, Some(KeyFileMissing), None, None)
    ensures SplitIdentity(inp.address).Some? && inp.keyFileExists && !inp.deployFileExists
      ==> o == Outcome(1, Some(DeployFileMissing), None, None)
    ensures o.request.Some? ==> o.signCall.Some?
    ensures
      && SplitIdentity(inp.address).Some? && inp.keyFileExists && inp.deployFileExists
      && inp.content.Some? && inp.keyText.Some?
      ==> o.signCall.Some?
    ensures o.signCall.Some? && sign(o.signCall.value).Some? && SigValue(sign(o.signCall.value).value).Some?
      ==> o.request.Some?
    ensures o.signCall.Some? ==>
      && SplitIdentity(inp.address).Some? && inp.keyFileExists && inp.deployFileExists
      && inp.content.Some? && inp.keyText.Some?
      && o.signCall.value == SignArgs(inp.address, SplitIdentity(inp.address).value, inp.content.value, inp.keyText.value)
    ensures o.signCall.Some? ==>
      && o.signCall.value.includeHeaders == ["From"]
      && o.signCall.value.canonicalize == (Encode("relaxed"), Encode("relaxed"))
    ensures o.request.Some? ==>
      && o.request.value.url == inp.server
      && o.request.value.body == inp.content.value
      && o.request.value.body != o.signCall.value.message
      && sign(o.signCall.value).Some?
      && SigValue(sign(o.signCall.value).value).Some?
      && o.request.value.headers
         == BuildHeaders(inp.address, SigValue(sign(o.signCall.value).value).value, inp.fileName, inp.env)
    ensures o.exitCode == 0 ==> o.request.Some? && post(o.request.value).Some? && post(o.request.value).value < 400
    ensures o.request.Some? && post(o.request.value).Some? && post(o.request.value).value >= 400
      ==> o.failure == Some(HttpError(post(o.request.value).value))
  {
    match SplitIdentity(inp.address)
    case None => Outcome(1, Some(InvalidAddress), None, None)
    case Some(id) =>
      if !inp.keyFileExists then Outcome(1, Some(KeyFileMissing), None, None)
      else if !inp.deployFileExists then Outcome(1, Some(DeployFileMissing), None, None)
      else
        match inp.content
        case None => Outcome(1, Some(ReadFailed), None, None)
        case Some(content) =>
          match inp.keyText
          case None => Outcome(1, Some(KeyReadFailed), None, None)
          case Some(key) =>
            var call := SignArgs(inp.address, id, content, key);
            match sign(call)
            case None => Outcome(1, Some(SignFailed), Some(call), None)
            case Some(line) =>
              match SigValue(line)
              case None => Outcome(1, Some(MalformedSignature), Some(call), None)
              case Some(value) =>
                var rq := Request(inp.server, content, BuildHeaders(inp.address, value, inp.fileName, inp.env));
                match post(rq)
                case None => Outcome(1, Some(UploadFailed), Some(call), Some(rq))
                case Some(status) =>
                  if status >= 400 then Outcome(1, Some(HttpError(status)), Some(call), Some(rq))
                  else Outcome(0, None, Some(call), Some(rq))
  }

  /** Every precondition and every step succeeded. */
  predicate AllStepsSucceed(inp: Inputs, sign: Signer, post: Poster) {
    && SplitIdentity(inp.address).Some?
    && inp.keyFileExists && inp.deployFileExists
    && inp.content.Some? && inp.keyText.Some?
    && var call := SignArgs(inp.address, SplitIdentity(inp.address).value, inp.content.value, inp.keyText.value);
    && sign(call).Some?
    && ':' in sign(call).value
    && var value := SigValue(sign(call).value).value;
    && var rq := Request(inp.server, inp.content.value, BuildHeaders(inp.address, value, inp.fileName, inp.env));
    && post(rq).Some?
    && post(rq).value < 400
  }

  /** The run ends with status 0 exactly when every check passes, the file
      and key are read, the signer returns a line with a colon, and the
      server answers below 400. */
  lemma SuccessIff(inp: Inputs, sign: Signer, post: Poster)
    ensures Run(inp, sign, post).exitCode == 0 <==> AllStepsSucceed(inp, sign, post)
  {
  }
}
