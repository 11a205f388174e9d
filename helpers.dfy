/** Site aliases and the locked write primitive of the `data` package: the
    ".com" alternative of a site name, the two-probe lookup of a site's
    credentials document, and the encrypt-then-overwrite of one document. */
module Helpers {
  import opened Results
  import opened GoStrings
  import opened Models

  /** The two lookups of golang.org/x/net/publicsuffix the alias logic uses,
      left uninterpreted: `EffectiveTldPlusOne(site)` is None where Go
      returns an error, and `PublicSuffix(site)` is the suffix with its
      "ICANN-managed" flag. */
  datatype SuffixList = SuffixList(
    EffectiveTldPlusOne: string -> Option<string>,
    PublicSuffix: string -> (string, bool))

  /** getAlternativeSite: the other spelling of a site name to try when the
      literal one has no document. */
  function AlternativeSite(psl: SuffixList, site: string): (alt: string)
    ensures HasSuffix(site, ".com") ==> alt + ".com" == site
    ensures !HasSuffix(site, ".com") ==> HasSuffix(alt, ".com")
  {
    if HasSuffix(site, ".com") then TrimSuffix(site, ".com")
    else match psl.EffectiveTldPlusOne(site)
      case None => WithCom(site)
      case Some(etldPlusOne) =>
        var (etld, icann) := psl.PublicSuffix(site);
        if !icann || etld == "" then WithCom(site)
        else
          var baseDomain := TrimSuffix(etldPlusOne, "." + etld);
          if site == etldPlusOne then WithCom(baseDomain)
          else
            var subdomain := TrimSuffix(site, "." + etldPlusOne);
            if subdomain != "" then WithCom(subdomain + "." + baseDomain)
            else WithCom(baseDomain)
  }

  /** `s + ".com"` */
  function WithCom(s: string): (r: string)
    ensures HasSuffix(r, ".com") && TrimSuffix(r, ".com") == s
  {
    HasSuffixOfConcat(s, ".com");
    TrimSuffixOfConcat(s, ".com");
    s + ".com"
  }

  /** The alternative is empty only for the site ".com" itself: every
      other site yields a non-empty name, so the `!= ""` guard of the lookup
      matters for that one input alone. */
  lemma AlternativeEmpty(psl: SuffixList, site: string)
    ensures AlternativeSite(psl, site) == "" <==> site == ".com"
  {
    if site == ".com" {
      assert HasSuffix(site, ".com");
    }
  }

  /** When the public suffix list gives no eTLD+1, or no ICANN suffix, the
      alternative of a non-".com" site is the site with ".com" appended (not
      the empty string). */
  lemma AlternativeFallback(psl: SuffixList, site: string)
    requires !HasSuffix(site, ".com")
    requires psl.EffectiveTldPlusOne(site).None?
      || !psl.PublicSuffix(site).1 || psl.PublicSuffix(site).0 == ""
    ensures AlternativeSite(psl, site) == site + ".com"
  {
  }

  /** A public suffix list that answers like the Mozilla list does for
      `site` = `subdomains` + `base` + "." + `etld`: the eTLD+1 is
      `base` + "." + `etld`, and `etld` is a non-empty ICANN suffix. */
  predicate SplitsAs(psl: SuffixList, site: string, base: string, etld: string)
  {
    && etld != ""
    && psl.EffectiveTldPlusOne(site) == Some(base + "." + etld)
    && psl.PublicSuffix(site) == (etld, true)
  }

  /** A registrable domain keeps its base and trades its public suffix for
      ".com": example.co.uk becomes example.com. */
  lemma AlternativeOfRegistrable(psl: SuffixList, base: string, etld: string)
    requires var site := base + "." + etld;
      SplitsAs(psl, site, base, etld) && !HasSuffix(site, ".com")
    ensures AlternativeSite(psl, base + "." + etld) == base + ".com"
  {
    TrimSuffixOfConcat(base, "." + etld);
    assert base + "." + etld == base + ("." + etld);
  }

  /** Below a registrable domain the subdomains are kept:
      www.example.co.uk becomes www.example.com. */
  lemma AlternativeOfSubdomain(psl: SuffixList, sub: string, base: string, etld: string)
    requires sub != []
    requires var site := sub + "." + base + "." + etld;
      SplitsAs(psl, site, base, etld) && !HasSuffix(site, ".com")
    ensures AlternativeSite(psl, sub + "." + base + "." + etld) == sub + "." + base + ".com"
  {
    var site := sub + "." + base + "." + etld;
    var etldPlusOne := base + "." + etld;
    TrimSuffixOfConcat(base, "." + etld);
    assert etldPlusOne == base + ("." + etld);
    assert site == sub + ("." + etldPlusOne);
    TrimSuffixOfConcat(sub, "." + etldPlusOne);
    assert |site| > |etldPlusOne|;
  }

  /** For names the public suffix list cannot split, the two spellings are
      each other's alternative: example.com and example. */
  lemma AlternativeRoundTrip(psl: SuffixList, name: string)
    requires !HasSuffix(name, ".com") && psl.EffectiveTldPlusOne(name).None?
    ensures AlternativeSite(psl, AlternativeSite(psl, name)) == name
    ensures AlternativeSite(psl, name + ".com") == name
  {
    HasSuffixOfConcat(name, ".com");
  }

  /** What one `Get` on a document of the `credentials` collection reports. */
  datatype Probe = Found | NotFound | Failed

  /** The `credentials` collection, keyed by site. `Unavailable` are the
      document IDs on which the backend fails with an error other than
      NotFound. */
  class Firestore {
    var Docs: map<string, Credentials>
    const Unavailable: set<string>

    constructor (docs: map<string, Credentials>, unavailable: set<string>)
      ensures Docs == docs && Unavailable == unavailable
    {
      Docs := docs;
      Unavailable := unavailable;
    }
  }

  /** `docRef.Get(ctx)` on the document `key`. */
  function ProbeDoc(docs: map<string, Credentials>, unavailable: set<string>, key: string): (p: Probe)
    ensures p == Found ==> key in docs
    ensures key in docs && key !in unavailable ==> p == Found
  {
    if key in unavailable then Failed
    else if key in docs then Found
    else NotFound
  }

  /** The outcome of findSiteDocument: the document found, as its key, or
      ErrNotFound; and the keys it probed, in order. */
  datatype Lookup = Lookup(found: Result<string, Error>, probed: seq<string>)

  /** findSiteDocument: the literal key first; then, only when that probe
      reported NotFound, the non-empty alternative. Every other outcome is
      ErrNotFound. */
  function FindSiteDocument(psl: SuffixList, docs: map<string, Credentials>, unavailable: set<string>, site: string): (r: Lookup)
    ensures r.found.Ok? ==> r.found.value in docs
    ensures r.found.Ok? ==> r.found.value == site || r.found.value == AlternativeSite(psl, site)
    ensures r.found.Err? ==> r.found.error == ErrNotFound
    ensures |r.probed| >= 1 && r.probed[0] == site
    ensures |r.probed| == 2 <==> ProbeDoc(docs, unavailable, site) == NotFound && AlternativeSite(psl, site) != ""
    ensures |r.probed| <= 2 && (|r.probed| == 2 ==> r.probed[1] == AlternativeSite(psl, site))
    ensures r.found.Ok? <==> ProbeDoc(docs, unavailable, r.probed[|r.probed| - 1]) == Found
  {
    if ProbeDoc(docs, unavailable, site) == Found then Lookup(Ok(site), [site])
    else if ProbeDoc(docs, unavailable, site) == NotFound && AlternativeSite(psl, site) != "" then
      var alternativeSite := AlternativeSite(psl, site);
      if ProbeDoc(docs, unavailable, alternativeSite) == Found then Lookup(Ok(alternativeSite), [site, alternativeSite])
      else Lookup(Err(ErrNotFound), [site, alternativeSite])
    else Lookup(Err(ErrNotFound), [site])
  }

  /** A document stored under the literal site name is the one found, even
      when its alternative has one too. */
  lemma LiteralWins(psl: SuffixList, docs: map<string, Credentials>, unavailable: set<string>, site: string)
    requires site in docs && site !in unavailable
    ensures FindSiteDocument(psl, docs, unavailable, site) == Lookup(Ok(site), [site])
  {
  }

  /** A document stored under the alternative spelling only is found
      through it, as long as neither probe fails. */
  lemma AlternativeFound(psl: SuffixList, docs: map<string, Credentials>, unavailable: set<string>, site: string)
    requires site !in docs && site !in unavailable
    requires var alt := AlternativeSite(psl, site); alt != "" && alt in docs && alt !in unavailable
    ensures FindSiteDocument(psl, docs, unavailable, site).found == Ok(AlternativeSite(psl, site))
  {
  }

  /** A first probe that fails with an error other than NotFound ends the
      lookup: the alternative is neither probed nor returned. */
  lemma FailedProbeStops(psl: SuffixList, docs: map<string, Credentials>, unavailable: set<string>, site: string)
    requires site in unavailable
    ensures FindSiteDocument(psl, docs, unavailable, site) == Lookup(Err(ErrNotFound), [site])
  {
  }

  /** updateLocked: encrypts the password and overwrites the document `site`
      (the name exactly as given, no alias) with the username and the
      ciphertext. A failed encryption or a failed write leaves the
      collection as it was. */
  method UpdateLocked(db: Firestore, encrypt: string -> Result<string, string>, site: string, username: string, password: string)
    returns (err: Option<Error>)
    modifies db
    ensures encrypt(password).Err? ==> err == Some(EncryptFailed(site, encrypt(password).error))
    ensures encrypt(password).Ok? && site in db.Unavailable ==> err == Some(WriteFailed(site))
    ensures err.Some? ==> db.Docs == old(db.Docs)
    ensures err.None? <==> encrypt(password).Ok? && site !in db.Unavailable
    ensures err.None? ==> db.Docs == old(db.Docs)[site := Credentials(username, encrypt(password).value)]
  {
    var encryptedPassword := encrypt(password);
    if encryptedPassword.Err? {
      return Some(EncryptFailed(site, encryptedPassword.error));
    }
    var creds := Credentials(username, encryptedPassword.value);
    if site in db.Unavailable {
      return Some(WriteFailed(site));
    }
    db.Docs := db.Docs[site := creds];
    return None;
  }

  /** After a successful updateLocked the site's document is found under
      its literal name and holds the new username and ciphertext; every
      other site's lookup among the documents is as before. */
  method UpdateThenFind(docs: map<string, Credentials>, unavailable: set<string>, psl: SuffixList,
                        encrypt: string -> Result<string, string>, site: string, username: string, password: string, other: string)
    returns (err: Option<Error>, found: Lookup, stored: Credentials, otherDoc: Option<Credentials>)
    requires encrypt(password).Ok? && site !in unavailable
    requires other != site
    ensures err.None? && found == Lookup(Ok(site), [site])
    ensures stored == Credentials(username, encrypt(password).value)
    ensures otherDoc == if other in docs then Some(docs[other]) else None
  {
    var db := new Firestore(docs, unavailable);
    err := UpdateLocked(db, encrypt, site, username, password);
    found := FindSiteDocument(psl, db.Docs, db.Unavailable, site);
    stored := db.Docs[site];
    otherDoc := if other in db.Docs then Some(db.Docs[other]) else None;
  }
}
