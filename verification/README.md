# gha-dkim deploy step, modelled in Dafny

The deployment script `deploy.py` uploads a file to a server and proves who
sent it with a DKIM signature (RFC 6376). Its single `main()` function:

1. splits the signing address `selector@domain` on `@`;
2. checks that the private-key file and the file to deploy exist;
3. builds the message `From: <address>` + blank line + file bytes and has the
   `dkim` library sign it, covering only the `From` header, with relaxed/relaxed
   canonicalization;
4. cuts the header value out of the returned `DKIM-Signature: ...` line;
5. builds the request headers, with three optional `X-GitHub-*` metadata
   headers taken from the environment;
6. POSTs the raw file bytes and exits with status 1 on any status of 400 or
   more, or on any exception.

This project models that pipeline as pure functions. Everything the script
reads from outside is a parameter: the exists-answers, the environment values,
the file content, the key text, the answer of `dkim.sign` and the answer of
`requests.post`.

Modules:

- `Wrappers`: `Option`. A Python exception is modelled as `None`.
- `PyStr`: the Python string operations the script relies on.
  - `str.split` with a one-character separator.
  - `str.strip()`, using CPython's `isspace` set.
  - `str.replace`: CPython's left-to-right scan over non-overlapping
    occurrences, defined by index over the fixed input string. Its
    `find`-based description (text before the leftmost occurrence, the
    replacement, then `replace` of the rest) is a lemma.
- `Utf8`: `str.encode()`, the UTF-8 encoding of Unicode scalar values.
- `Identity`: splitting the signing address into selector and domain.
- `Signing`: the signable message, and the extraction of the signature header value.
- `Dispatch`: the header dict and the rewriting of the git ref.
- `Deploy`: `main()` as `Run`, returning an `Outcome`. The outcome holds:
  - the exit status;
  - the failing step, if any;
  - the arguments of the signer call, if it was made;
  - the arguments of the POST, if it was made.

## Behaviour of the code worth knowing

- Identity: an address with exactly one `@` is accepted, even when a part is
  empty.
  `"@"` gives an empty selector and an empty domain.
- Metadata headers: an unset or empty `GITHUB_REPOSITORY`, `GITHUB_SHA` or
  `GITHUB_REF` reads as `''`, and its header is left out. No other value is put
  in its place.
- Git ref: every occurrence of `refs/heads/` is removed, in one pass, not only
  a leading one. `refs/refs/heads/heads/` becomes `refs/heads/`.
- Signature value: the value is `split(":")[1]`, the text between the first and
  second colon. A colon in the value (for example in a selector `a:b`) cuts it
  short.
- Line breaks in the value: CRLF pairs are removed in a single pass. A lone CR
  or LF survives, and the pass can even leave a CRLF: `\r\r\n\n` becomes `\r\n`.

## Model

| member | source | states |
|---|---|---|
| PyStr.Split | deploy.py:33 | `s.split(sep)` gives at least one piece, a single piece exactly when `s` has no separator, and no piece holds the separator |
| PyStr.SplitCount | deploy.py:33-34 | the split gives one more piece than `s` has separators, so two pieces means exactly one `@` |
| PyStr.JoinSplit | deploy.py:33 | joining the pieces of a split with the separator gives back the original string |
| PyStr.SplitJoin | deploy.py:33 | conversely, splitting the join of separator-free pieces gives back the pieces |
| PyStr.SplitCons | deploy.py:33 | a prefix free of the separator, followed by the separator, becomes the first piece and the rest splits on its own |
| PyStr.Strip | deploy.py:78 | `strip()` returns a slice of the input with only whitespace cut from both ends, and the slice neither starts nor ends with whitespace |
| PyStr.StripUnique | deploy.py:78 | for any input written as whitespace, a core without whitespace at its ends, and whitespace, `strip()` returns that core |
| PyStr.StripIdempotent | deploy.py:78 | stripping twice is the same as stripping once |
| PyStr.Replace | deploy.py:78 | `str.replace` as a left-to-right scan over non-overlapping occurrences; a replacement no longer than the pattern never lengthens the string, so removing a pattern never lengthens it; the scan itself is stated by `ReplaceAt`, `ReplaceStep` and `ReplaceAtFirst` |
| PyStr.ReplaceChars | deploy.py:78 | every character of the result of `replace` comes from the input or from the replacement |
| PyStr.ReplaceAt | deploy.py:78 | when the input starts with the pattern, the result is the replacement followed by `replace` of the text after the pattern |
| PyStr.ReplaceStep | deploy.py:78 | when the input does not start with the pattern, its first character is kept and the scan goes on at the next one |
| PyStr.ReplaceNoMatch | deploy.py:89 | when the pattern does not occur in the input, `replace` returns the input unchanged |
| PyStr.ReplaceAtFirst | deploy.py:78 | `replace` matches CPython's find-based loop: the text before the leftmost occurrence, then the replacement, then `replace` applied to what follows that occurrence |
| Utf8.EncodeChar | deploy.py:64 | each character encodes to 1-4 bytes; the lead byte announces the length, the other bytes are continuation bytes, and the bytes decode back to the code point; the length is the shortest form for the code point's range (1 below 0x80, 2 below 0x800, 3 below 0x10000, 4 above), so no overlong form is produced |
| Utf8.Encode | deploy.py:64 | `str.encode()` concatenates the per-character encodings of `EncodeChar`, so it takes between one and four bytes per character |
| Utf8.EncodeAppend | deploy.py:64 | encoding distributes over concatenation |
| Utf8.EncodeAroundAt | deploy.py:69-70 | the encoding of `selector@domain` is the encoded selector, the byte 0x40, then the encoded domain |
| Utf8.EncodeAscii | deploy.py:64 | an ASCII string encodes to one byte per character, and each byte is the character's code |
| Identity.SplitIdentity | deploy.py:33-39 | the address is accepted iff it holds exactly one `@`; then selector + `@` + domain is the address, and neither part holds `@` |
| Identity.SplitIdentityOf | deploy.py:33-39 | any selector and domain without `@` are recovered from the address they form |
| Identity.EmptyPartsAccepted | deploy.py:33-39 | the address `@` is accepted, with an empty selector and an empty domain |
| Signing.SignableMessage | deploy.py:63-64 | the message is the bytes of `From: `, then the encoded address, then two line feeds, then the file content unchanged as an exact suffix |
| Signing.AsciiMessageLayout | deploy.py:64 | for an ASCII address the header part is exactly the address length + 8 bytes, and the content is what follows it |
| Signing.MessageDeterminesContent | deploy.py:64 | for a fixed address, equal messages mean equal file contents |
| Signing.SigValue | deploy.py:78 | extraction fails iff the line has no colon; otherwise the value holds no colon and neither starts nor ends with whitespace |
| Signing.SigValueBetweenColons | deploy.py:78 | the value is the text between the first and second colon (or the end of the line), stripped, with CRLF pairs removed |
| Signing.SigValueIgnoresAfterSecondColon | deploy.py:78 | whatever follows a second colon has no effect on the value |
| Signing.SigValueOfFoldedLine | deploy.py:78 | for a signer line `name: ` + colon-free lines joined with CRLF + a final CRLF, the value is the lines concatenated |
| Signing.RemoveCrlf | deploy.py:78 | `.replace("\r\n", "")` is `Replace` with pattern CRLF and an empty replacement; it only deletes, so the result is no longer than the input and holds only characters of the input |
| Signing.CrlfEnds | deploy.py:78 | removing CRLF from a stripped string cannot expose whitespace at either end |
| Signing.CrlfConcat | deploy.py:78 | CRLF removal splits over a concatenation whose cut does not fall between a CR and an LF |
| Signing.NoCrUnchanged | deploy.py:78 | a string without CR is unchanged, so lone LFs survive |
| Signing.UnfoldLines | deploy.py:78 | CR-free lines joined with CRLF come back concatenated |
| Signing.CrlfSurvives | deploy.py:78 | one pass over `\r\r\n\n` leaves `\r\n`, so the result can still contain CRLF |
| Signing.LoneCrSurvives | deploy.py:78 | a CR that is not followed by LF, between CR-free text, is kept: the pass leaves the string unchanged |
| Dispatch.RefHeaderValue | deploy.py:89 | rewriting the ref never lengthens it |
| Dispatch.RefWithoutHeadsUnchanged | deploy.py:89 | a ref without `refs/heads/` is sent unchanged |
| Dispatch.RefRemovesEveryOccurrence | deploy.py:89 | after the first `refs/heads/` is removed, removal continues on the rest of the ref, so every occurrence goes |
| Dispatch.RefDropsLeadingPrefix | deploy.py:89 | a leading `refs/heads/` is dropped |
| Dispatch.RefOfBranch | deploy.py:89 | `refs/heads/main` gives `main`; `refs/heads/` gives an empty value |
| Dispatch.RefSinglePass | deploy.py:89 | `refs/refs/heads/heads/` gives `refs/heads/`; an occurrence that the removal brings together stays |
| Dispatch.Put | deploy.py:85 | after `headers[name] = value`, name maps to value and other names keep their values; a new name is appended, an existing one keeps its place |
| Dispatch.PutIf | deploy.py:84-89 | with an empty condition the dict is unchanged, otherwise the header is set; a new name is appended after the existing entries, exactly one entry when the condition is non-empty and none otherwise; names stay unique and among the seven known |
| Dispatch.AddMetadata | deploy.py:84-89 | on a dict without them, each `X-GitHub-*` header is set exactly when its variable is non-empty, appended in the order repository, SHA, ref; existing entries keep their place and every other name its value; names stay unique and among the seven |
| Dispatch.ThreePuts | deploy.py:84-89 | three guarded assignments of distinct new names: each name is present iff its condition is non-empty, with its value; the earlier entries stay as a prefix; other names are unchanged |
| Dispatch.ThreePutsOrder | deploy.py:84-89 | three guarded assignments of distinct new names append exactly the entries whose condition is non-empty, in assignment order |
| Dispatch.BuildHeaders | deploy.py:76-89 | four fixed headers first, in order: `From` (the address verbatim), `DKIM-Signature`, `Content-Type: application/data`, `Content-Disposition: attachment; filename="…"`; then each `X-GitHub-*` header iff its variable is non-empty, in the order repository, SHA, ref, with no fallback, and the ref is rewritten; no other names, none twice |
| Deploy.SignArgs | deploy.py:33-74 | for a selector and domain split from the address, the selector bytes, the byte of `@` and the domain bytes make up exactly the encoded `From` address, so the signing domain is the sender's; the signer also gets the signable message, the encoded key, `include_headers` `["From"]`, and relaxed canonicalization for both header and body |
| Deploy.Run | deploy.py:33-101 | see the list below the table |
| Deploy.SuccessIff | deploy.py:92-101 | exit status 0 iff every check passes, both reads succeed, the signer returns a line with a colon, and the server answers below 400 |

`Deploy.Run` states:

- The exit status is 0 or 1, and it is 0 iff there is no failure.
- The checks run in order:
  - an invalid address stops the run before the key-file check;
  - a missing key file stops it before the deploy-file check;
  - a failing check means nothing is signed and nothing is sent.
- The signer gets:
  - the synthetic message;
  - the encoded selector and domain;
  - the encoded key;
  - `include_headers` `["From"]`;
  - `canonicalize` `(b"relaxed", b"relaxed")`.
- The POST goes to the server URL.
- The POST body is the raw file content, not the signed message.
- The POST headers are built from the extracted signature value.
- Nothing is sent without signing first.
- The calls are made once their inputs are there:
  - once the three checks pass and both reads succeed, the signer is called;
  - once the signer returns a line with a colon, the POST is made, whatever
    its answer.
- Status 0 implies a response below 400.
- A response of 400 or more is an HTTP failure.

## Left out

- `dkim.sign` is an opaque parameter of `Run`. The model records which canonicalization is asked for, but not what it does. Its canonicalization (sections 3.4.2 and 3.4.4 of RFC 6376), body hash and RSA signing are part of a foreign library. `signature.decode()` is folded into that parameter: the signer returns the decoded line, or `None` when signing or decoding raises.
- `requests.post` is a parameter that returns a status or `None` (an exception). This covers the library's own rejection of header values with CR/LF or leading whitespace. Printing the response is left out as output.
- Command-line parsing is left out; the default key path `gha.pem` only chooses which file is checked.
- The following are left out as I/O. Their answers are fields of `Inputs`:
  - `os.path.exists`;
  - `os.path.basename`;
  - `os.environ.get(..., '')`;
  - reading the file to deploy;
  - the text-mode read of the key.
- `print` output, and a `print` that raises, are left out. The `print` calls at deploy.py:91, 93 and 94 are inside the `try`, so one that raises (for example on a closed stdout) would end the run with status 1 even after a response below 400. The model gives 0 in that case.
- Strings holding lone surrogates are left out: Dafny characters are Unicode scalar values. Such a string can come from a command-line argument, and its `.encode()` at deploy.py:64 would raise outside the `try`, which still means exit status 1.
- `sys.exit(1)` inside the `try` raises `SystemExit`, which `except Exception` does not catch. The status is 1 either way, and the model gives 1 directly.
- Dispatch.RefHeaderValue: its contract states only the length bound. Its full behaviour is in the lemmas `RefWithoutHeadsUnchanged`, `RefRemovesEveryOccurrence` and `RefSinglePass`.
