/** The identity resolver of the deployment script: the signing address is
    split on `@` into the DKIM selector (the part before it) and the signing
    domain (the part after it). */
module Identity {
  import opened Wrappers
  import opened PyStr

  /* ---------------------------------------------------------------------
     Signing identity
     --------------------------------------------------------------------- */

  /** The DKIM selector (the local part) and domain of the signing address. */
  datatype SigningIdentity = SigningIdentity(selector: string, domain: string)

  /** `address.split('@')`, accepted only when it gives exactly two pieces:
      the address must hold exactly one `@`, and the two pieces put back
      around it give the address. Empty pieces are accepted. */
  function SplitIdentity(address: string): (id: Option<SigningIdentity>)
    ensures id.Some? <==> multiset(address)['@'] == 1
    ensures id.Some? ==> id.value.selector + "@" + id.value.domain == address
    ensures id.Some? ==> '@' !in id.value.selector && '@' !in id.value.domain
  {
    var parts := Split(address, '@');
    SplitCount(address, '@');
    if |parts| != 2 then None
    else
      JoinSplit(address, '@');
      assert Join(parts, "@") == parts[0] + "@" + Join(parts[1..], "@");
      Some(SigningIdentity(parts[0], parts[1]))
  }

  /** Conversely, any selector and domain free of `@` are recovered from the
      address they form, including empty ones. */
  lemma SplitIdentityOf(selector: string, domain: string)
    requires '@' !in selector && '@' !in domain
    ensures SplitIdentity(selector + "@" + domain) == Some(SigningIdentity(selector, domain))
  {
    SplitCons(selector, '@', domain);
    assert Split(domain, '@') == [domain];
  }

  /** An address made of the `@` alone is accepted with an empty selector and
      an empty domain. */
  lemma EmptyPartsAccepted()
    ensures SplitIdentity("@") == Some(SigningIdentity("", ""))
  {
    SplitIdentityOf("", "");
    assert "" + "@" + "" == "@";
  }
}
