/** The request headers of the signed upload: the four fixed headers, the
    optional `X-GitHub-*` metadata headers, and the rewriting of the git
    ref. */
module Dispatch {
  import opened Wrappers
  import opened PyStr

  /* ---------------------------------------------------------------------
     The git ref
     --------------------------------------------------------------------- */

  const HeadsPrefix := "refs/heads/"

  /** `ref.replace('refs/heads/', '')`: every non-overlapping occurrence is
      removed, wherever it stands, so the value never grows. */
  function RefHeaderValue(ref: string): (v: string)
    ensures |v| <= |ref|
  {
    Replace(ref, HeadsPrefix, "")
  }

  /** A ref without `refs/heads/` is sent unchanged. */
  lemma RefWithoutHeadsUnchanged(ref: string)
    requires Absent(ref, HeadsPrefix)
    ensures RefHeaderValue(ref) == ref
  {
    ReplaceNoMatch(ref, HeadsPrefix, "");
  }

  /** Removal goes on after the first occurrence: the value is the text before
      it followed by the rewriting of the text after it. */
  lemma RefRemovesEveryOccurrence(ref: string, i: nat)
    requires FirstOccurrence(ref, HeadsPrefix, i)
    ensures RefHeaderValue(ref) == ref[..i] + RefHeaderValue(ref[i + |HeadsPrefix|..])
  {
    var after := ref[i + |HeadsPrefix|..];
    ReplaceAtFirst(ref, HeadsPrefix, "", i);
    assert ref[..i] + "" == ref[..i];
  }

  /** A leading `refs/heads/` is dropped. */
  lemma RefDropsLeadingPrefix(rest: string)
    ensures RefHeaderValue(HeadsPrefix + rest) == RefHeaderValue(rest)
  {
    var s := HeadsPrefix + rest;
    assert HeadsPrefix <= s;
    ReplaceAt(s, HeadsPrefix, "");
    assert s[|HeadsPrefix|..] == rest;
  }

  /** A branch ref loses its prefix; the bare prefix gives a present but
      empty value. */
  lemma RefOfBranch()
    ensures RefHeaderValue("refs/heads/main") == "main"
    ensures RefHeaderValue("refs/heads/") == ""
  {
    RefDropsLeadingPrefix("main");
    assert HeadsPrefix + "main" == "refs/heads/main";
    RefWithoutHeadsUnchanged("main");
    RefDropsLeadingPrefix("");
    assert HeadsPrefix + "" == "refs/heads/";
  }

  /** Text in which no occurrence starts passes through unchanged. */
  lemma RefKeepsCleanPrefix(x: string, rest: string)
    requires forall j: nat :: j < |x| ==> !OccursAt(x + rest, HeadsPrefix, j)
    ensures RefHeaderValue(x + rest) == x + RefHeaderValue(rest)
  {
    var s := x + rest;
    ReplaceSkips(s, HeadsPrefix, "", |x|);
    assert s[..|x|] == x && s[|x|..] == rest;
  }

  /** The rewriting is a single pass: an occurrence that the removal itself
      brings together is left in place. */
  lemma RefSinglePass()
    ensures RefHeaderValue("refs/" + HeadsPrefix + "heads/") == HeadsPrefix
  {
    var rest := HeadsPrefix + "heads/";
    NoOccurrenceInFirstFive("refs/" + rest);
    assert "refs/" + HeadsPrefix + "heads/" == "refs/" + rest;
    RefKeepsCleanPrefix("refs/", rest);
    RefDropsLeadingPrefix("heads/");
    RefWithoutHeadsUnchanged("heads/");
    assert "refs/" + "heads/" == HeadsPrefix;
  }

  /** In `refs/refs/heads/heads/` no `refs/heads/` starts before index 5:
      at each such index either the `r` or the `h` is missing. */
  lemma NoOccurrenceInFirstFive(s: string)
    requires s == "refs/" + HeadsPrefix + "heads/"
    ensures forall j: nat :: j < 5 ==> !OccursAt(s, HeadsPrefix, j)
  {
    forall j: nat | j < 5 ensures !OccursAt(s, HeadsPrefix, j) {
      assert s[j..j + 11][0] == s[j] && s[j..j + 11][5] == s[j + 5];
      assert s[j] != 'r' || s[j + 5] != 'h';
    }
  }

  /* ---------------------------------------------------------------------
     Header dictionary
     --------------------------------------------------------------------- */

  /** One request header. */
  datatype Header = Header(name: string, value: string)

  /** A Python dict of headers, in insertion order. */
  type Headers = seq<Header>

  /** `headers.get(name)`. */
  function Lookup(hs: Headers, name: string): Option<string> {
    if |hs| == 0 then None
    else if hs[0].name == name then Some(hs[0].value)
    else Lookup(hs[1..], name)
  }

  /** No name is present twice, as in a dict. */
  predicate UniqueNames(hs: Headers) {
    forall i, j :: 0 <= i < j < |hs| ==> hs[i].name != hs[j].name
  }

  /** A name is found exactly when some entry carries it. */
  lemma {:induction false} LookupFound(hs: Headers, n: string)
    ensures Lookup(hs, n).Some? <==> exists i :: 0 <= i < |hs| && hs[i].name == n
    decreases |hs|
  {
    if |hs| > 0 {
      LookupFound(hs[1..], n);
      if exists i :: 0 <= i < |hs| && hs[i].name == n {
        var i :| 0 <= i < |hs| && hs[i].name == n;
        if i > 0 {
          assert hs[1..][i - 1].name == n;
        }
      }
      if exists i :: 0 <= i < |hs[1..]| && hs[1..][i].name == n {
        var i :| 0 <= i < |hs[1..]| && hs[1..][i].name == n;
        assert hs[i + 1].name == n;
      }
    }
  }

  /** In a dict, each entry is what its name looks up. */
  lemma {:induction false} LookupAt(hs: Headers, i: nat)
    requires UniqueNames(hs) && i < |hs|
    ensures Lookup(hs, hs[i].name) == Some(hs[i].value)
    decreases i
  {
    if i > 0 {
      assert hs[0].name != hs[i].name;
      assert hs[1..][i - 1] == hs[i];
      LookupAt(hs[1..], i - 1);
    }
  }

  /** `headers[name] = value`: afterwards `name` maps to `value` and every
      other name to what it mapped to before; a new name is appended, an
      existing one keeps its place. */
  function Put(hs: Headers, name: string, value: string): (r: Headers)
    ensures Lookup(r, name) == Some(value)
    ensures forall n :: n != name ==> Lookup(r, n) == Lookup(hs, n)
    ensures Lookup(hs, name).None? ==> r == hs + [Header(name, value)]
    ensures Lookup(hs, name).Some? ==> |r| == |hs| && forall i :: 0 <= i < |r| ==> r[i].name == hs[i].name
  {
    if |hs| == 0 then
      [Header(name, value)]
    else if hs[0].name == name then
      [Header(name, value)] + hs[1..]
    else
      [hs[0]] + Put(hs[1..], name, value)
  }

  /** Setting a header keeps the names unique. */
  lemma PutUnique(hs: Headers, name: string, value: string)
    ensures UniqueNames(hs) ==> UniqueNames(Put(hs, name, value))
  {
    if UniqueNames(hs) && Lookup(hs, name).None? {
      LookupFound(hs, name);
    }
  }

  /** Setting a header with a known name keeps every name known. */
  lemma PutKnownNames(hs: Headers, name: string, value: string)
    ensures (forall i :: 0 <= i < |hs| ==> hs[i].name in HeaderNames) && name in HeaderNames
      ==> forall i :: 0 <= i < |Put(hs, name, value)| ==> Put(hs, name, value)[i].name in HeaderNames
  {
    var r := Put(hs, name, value);
    if (forall i :: 0 <= i < |hs| ==> hs[i].name in HeaderNames) && name in HeaderNames {
      forall i | 0 <= i < |r| ensures r[i].name in HeaderNames {
        if i < |hs| {
          assert r[i].name == hs[i].name;
        } else {
          assert r[i].name == name;
        }
      }
    }
  }

  /** The deployment metadata read from `GITHUB_REPOSITORY`, `GITHUB_SHA` and
      `GITHUB_REF`; an unset variable reads as the empty string. */
  datatype Env = Env(repository: string, sha: string, ref: string)

  /** The seven header names the upload can carry. */
  const HeaderNames: set<string> := {
    "From", "DKIM-Signature", "Content-Type", "Content-Disposition",
    "X-GitHub-Repository", "X-GitHub-SHA", "X-GitHub-Ref"
  }

  /** The four headers every upload carries, in insertion order. */
  function FixedHeaders(address: string, sigValue: string, fileName: string): Headers {
    [ Header("From", address),
      Header("DKIM-Signature", sigValue),
      Header("Content-Type", "application/data"),
      Header("Content-Disposition", "attachment; filename=\"" + fileName + "\"") ]
  }

  /** The entries `if cond: headers[name] = value` appends to a dict that
      does not hold `name`: none for an empty `cond`, otherwise one. */
  function Appended(cond: string, name: string, value: string): Headers {
    if cond == "" then [] else [Header(name, value)]
  }

  /** `if cond: headers[name] = value`. With an empty `cond` nothing
      changes; otherwise `name` is set and every other name keeps its value.
      A name not yet present is appended after the existing entries, and
      names stay unique and within `HeaderNames`. */
  function PutIf(hs: Headers, cond: string, name: string, value: string): (r: Headers)
    ensures Lookup(r, name) == if cond == "" then Lookup(hs, name) else Some(value)
    ensures forall n :: n != name ==> Lookup(r, n) == Lookup(hs, n)
    ensures Lookup(hs, name).None? ==> |r| >= |hs| && r[..|hs|] == hs
    ensures Lookup(hs, name).None? ==> r == hs + Appended(cond, name, value)
    ensures UniqueNames(hs) ==> UniqueNames(r)
    ensures (forall i :: 0 <= i < |hs| ==> hs[i].name in HeaderNames) && name in HeaderNames
      ==> forall i :: 0 <= i < |r| ==> r[i].name in HeaderNames
  {
    if cond == "" then hs
    else
      PutUnique(hs, name, value);
      PutKnownNames(hs, name, value);
      var r := Put(hs, name, value);
      assert Lookup(hs, name).None? ==> r[..|hs|] == hs;
      r
  }

  /** The upload's headers: the four fixed ones first, in order (the sender
      verbatim, the signature value, the generic content type, the file name
      as an attachment), then each `X-GitHub-*` header exactly when its
      variable is non-empty, in the order repository, commit, ref, with no
      substitute value for an empty one, and no header beyond these seven
      names, none twice. */
  function BuildHeaders(address: string, sigValue: string, fileName: string, env: Env): (hs: Headers)
    ensures |hs| >= 4 && hs[..4] == FixedHeaders(address, sigValue, fileName)
    ensures hs == FixedHeaders(address, sigValue, fileName)
      + Appended(env.repository, "X-GitHub-Repository", env.repository)
      + Appended(env.sha, "X-GitHub-SHA", env.sha)
      + Appended(env.ref, "X-GitHub-Ref", RefHeaderValue(env.ref))
    ensures Lookup(hs, "From") == Some(address)
    ensures Lookup(hs, "DKIM-Signature") == Some(sigValue)
    ensures Lookup(hs, "Content-Type") == Some("application/data")
    ensures Lookup(hs, "Content-Disposition") == Some("attachment; filename=\"" + fileName + "\"")
    ensures Lookup(hs, "X-GitHub-Repository") == if env.repository == "" then None else Some(env.repository)
    ensures Lookup(hs, "X-GitHub-SHA") == if env.sha == "" then None else Some(env.sha)
    ensures Lookup(hs, "X-GitHub-Ref") == if env.ref == "" then None else Some(RefHeaderValue(env.ref))
    ensures forall i :: 0 <= i < |hs| ==> hs[i].name in HeaderNames
    ensures UniqueNames(hs)
  {
    var fixed := FixedHeaders(address, sigValue, fileName);
    FixedFacts(address, sigValue, fileName);
    FixedNotMetadata();
    AddMetadata(fixed, env)
  }

  /** The names of the optional metadata headers. */
  const MetadataNames: set<string> := {"X-GitHub-Repository", "X-GitHub-SHA", "X-GitHub-Ref"}

  /** The optional metadata headers, each set only when its variable is
      non-empty, on a dict that does not hold them yet: they are appended in
      the order repository, commit, ref. Each is present exactly when its
      variable is non-empty, the existing entries keep their place, and every
      other name keeps its value. */
  function AddMetadata(fixed: Headers, env: Env): (hs: Headers)
    requires UniqueNames(fixed)
    requires forall i :: 0 <= i < |fixed| ==> fixed[i].name in HeaderNames
    requires forall n :: n in MetadataNames ==> Lookup(fixed, n).None?
    ensures |hs| >= |fixed| && hs[..|fixed|] == fixed
    ensures hs == fixed + Appended(env.repository, "X-GitHub-Repository", env.repository)
      + Appended(env.sha, "X-GitHub-SHA", env.sha)
      + Appended(env.ref, "X-GitHub-Ref", RefHeaderValue(env.ref))
    ensures Lookup(hs, "X-GitHub-Repository") == if env.repository == "" then None else Some(env.repository)
    ensures Lookup(hs, "X-GitHub-SHA") == if env.sha == "" then None else Some(env.sha)
    ensures Lookup(hs, "X-GitHub-Ref") == if env.ref == "" then None else Some(RefHeaderValue(env.ref))
    ensures forall n :: n !in MetadataNames ==> Lookup(hs, n) == Lookup(fixed, n)
    ensures forall i :: 0 <= i < |hs| ==> hs[i].name in HeaderNames
    ensures UniqueNames(hs)
  {
    MetadataFacts();
    var h1 := PutIf(fixed, env.repository, "X-GitHub-Repository", env.repository);
    var h2 := PutIf(h1, env.sha, "X-GitHub-SHA", env.sha);
    var h3 := PutIf(h2, env.ref, "X-GitHub-Ref", RefHeaderValue(env.ref));
    ThreePuts(fixed, env.repository, "X-GitHub-Repository", env.repository,
      env.sha, "X-GitHub-SHA", env.sha, env.ref, "X-GitHub-Ref", RefHeaderValue(env.ref));
    ThreePutsOrder(fixed, env.repository, "X-GitHub-Repository", env.repository,
      env.sha, "X-GitHub-SHA", env.sha, env.ref, "X-GitHub-Ref", RefHeaderValue(env.ref));
    h3
  }

  /** Three conditional puts of distinct names missing from `h0`: each name
      ends up present exactly when its condition is non-empty, the entries
      of `h0` keep their place, other names keep their values, and names
      stay unique and known. */
  lemma ThreePuts(h0: Headers, c1: string, n1: string, v1: string,
                  c2: string, n2: string, v2: string, c3: string, n3: string, v3: string)
    requires n1 != n2 && n1 != n3 && n2 != n3
    requires Lookup(h0, n1).None? && Lookup(h0, n2).None? && Lookup(h0, n3).None?
    requires UniqueNames(h0)
    requires forall i :: 0 <= i < |h0| ==> h0[i].name in HeaderNames
    requires n1 in HeaderNames && n2 in HeaderNames && n3 in HeaderNames
    ensures var h3 := PutIf(PutIf(PutIf(h0, c1, n1, v1), c2, n2, v2), c3, n3, v3);
      && |h3| >= |h0| && h3[..|h0|] == h0
      && Lookup(h3, n1) == (if c1 == "" then None else Some(v1))
      && Lookup(h3, n2) == (if c2 == "" then None else Some(v2))
      && Lookup(h3, n3) == (if c3 == "" then None else Some(v3))
      && (forall n :: n != n1 && n != n2 && n != n3 ==> Lookup(h3, n) == Lookup(h0, n))
      && (forall i :: 0 <= i < |h3| ==> h3[i].name in HeaderNames)
      && UniqueNames(h3)
  {
    var h1 := PutIf(h0, c1, n1, v1);
    var h2 := PutIf(h1, c2, n2, v2);
    var h3 := PutIf(h2, c3, n3, v3);
    assert h3[..|h0|] == h0 by {
      assert h2[..|h1|] == h1;
      assert h3[..|h2|] == h2;
    }
  }

  /** Three conditional puts of distinct names missing from `h0` append
      their entries in the order of the puts. */
  lemma ThreePutsOrder(h0: Headers, c1: string, n1: string, v1: string,
                       c2: string, n2: string, v2: string, c3: string, n3: string, v3: string)
    requires n1 != n2 && n1 != n3 && n2 != n3
    requires Lookup(h0, n1).None? && Lookup(h0, n2).None? && Lookup(h0, n3).None?
    ensures PutIf(PutIf(PutIf(h0, c1, n1, v1), c2, n2, v2), c3, n3, v3)
      == h0 + Appended(c1, n1, v1) + Appended(c2, n2, v2) + Appended(c3, n3, v3)
  {
    var h1 := PutIf(h0, c1, n1, v1);
    assert h1 == h0 + Appended(c1, n1, v1);
    assert Lookup(h1, n2).None?;
    var h2 := PutIf(h1, c2, n2, v2);
    assert h2 == h1 + Appended(c2, n2, v2);
    assert Lookup(h2, n3).None?;
  }

  /** The metadata names are three different known names. */
  lemma MetadataFacts()
    ensures "X-GitHub-Repository" != "X-GitHub-SHA" && "X-GitHub-Repository" != "X-GitHub-Ref"
    ensures "X-GitHub-SHA" != "X-GitHub-Ref"
    ensures "X-GitHub-Repository" in HeaderNames && "X-GitHub-SHA" in HeaderNames
    ensures "X-GitHub-Ref" in HeaderNames
    ensures forall n :: n in MetadataNames <==> n == "X-GitHub-Repository" || n == "X-GitHub-SHA" || n == "X-GitHub-Ref"
  {
    assert "X-GitHub-Repository"[9] != "X-GitHub-SHA"[9];
    assert "X-GitHub-Repository"[11] != "X-GitHub-Ref"[11];
    assert "X-GitHub-SHA"[9] != "X-GitHub-Ref"[9];
  }

  /** None of the four fixed names is a metadata name. */
  lemma FixedNotMetadata()
    ensures "From" !in MetadataNames && "DKIM-Signature" !in MetadataNames
    ensures "Content-Type" !in MetadataNames && "Content-Disposition" !in MetadataNames
  {
    assert "From"[0] != 'X' && "DKIM-Signature"[0] != 'X';
    assert "Content-Type"[0] != 'X' && "Content-Disposition"[0] != 'X';
    assert forall n :: n in MetadataNames ==> n[0] == 'X';
  }

  /** The seven names are pairwise different. */
  lemma NamesDistinct()
    ensures "Content-Type" != "X-GitHub-SHA" && "Content-Type" != "X-GitHub-Ref"
    ensures "Content-Disposition" != "X-GitHub-Repository"
    ensures "X-GitHub-SHA" != "X-GitHub-Ref"
  {
    assert "Content-Type"[0] != "X-GitHub-SHA"[0];
    assert "Content-Type"[0] != "X-GitHub-Ref"[0];
    assert "Content-Disposition"[0] != "X-GitHub-Repository"[0];
    assert "X-GitHub-SHA"[9] != "X-GitHub-Ref"[9];
  }

  /** The fixed headers form a dict holding exactly the four fixed names. */
  lemma FixedFacts(address: string, sigValue: string, fileName: string)
    ensures var fixed := FixedHeaders(address, sigValue, fileName);
      && UniqueNames(fixed)
      && (forall i :: 0 <= i < |fixed| ==> fixed[i].name in HeaderNames)
      && Lookup(fixed, "From") == Some(address)
      && Lookup(fixed, "DKIM-Signature") == Some(sigValue)
      && Lookup(fixed, "Content-Type") == Some("application/data")
      && Lookup(fixed, "Content-Disposition") == Some("attachment; filename=\"" + fileName + "\"")
      && Lookup(fixed, "X-GitHub-Repository").None?
      && Lookup(fixed, "X-GitHub-SHA").None?
      && Lookup(fixed, "X-GitHub-Ref").None?
  {
    var fixed := FixedHeaders(address, sigValue, fileName);
    NamesDistinct();
    assert UniqueNames(fixed);
    LookupAt(fixed, 0);
    LookupAt(fixed, 1);
    LookupAt(fixed, 2);
    LookupAt(fixed, 3);
    LookupFound(fixed, "X-GitHub-Repository");
    LookupFound(fixed, "X-GitHub-SHA");
    LookupFound(fixed, "X-GitHub-Ref");
  }
}
