/** The in-memory credential store of data/cred.go: a Go map, which the
    caller owns and `Store` writes through. */
module Cred {
  import opened Results
  import opened Models

  /** The two errors `Store` returns. */
  datatype StoreError = NilMap | EmptyField

  /** A `map[string]Credentials`: a reference to entries that `Store`
      updates in place. */
  class CredMap {
    var Entries: map<string, Credentials>

    constructor (entries: map<string, Credentials>)
      ensures Entries == entries
    {
      Entries := entries;
    }
  }

  /** The inputs `Store` accepts, in the order it checks them. */
  function StoreCheck(credMap: CredMap?, site: string, username: string, password: string): (r: Option<StoreError>)
    ensures r == None <==> credMap != null && site != "" && username != "" && password != ""
    ensures credMap == null ==> r == Some(NilMap)
    ensures r == Some(EmptyField) <==> credMap != null && (site == "" || username == "" || password == "")
  {
    if credMap == null then Some(NilMap)
    else if site == "" || username == "" || password == "" then Some(EmptyField)
    else None
  }

  /** Store: rejects a nil map, then an empty field; otherwise sets
      `credMap[site]`, overwriting what was there (last write wins). */
  method Store(credMap: CredMap?, site: string, username: string, password: string) returns (err: Option<StoreError>)
    modifies credMap
    ensures err == StoreCheck(credMap, site, username, password)
    ensures credMap != null && err.Some? ==> credMap.Entries == old(credMap.Entries)
    ensures credMap != null && err.None? ==> credMap.Entries == old(credMap.Entries)[site := Credentials(username, password)]
  {
    if credMap == null {
      return Some(NilMap);
    }
    if site == "" || username == "" || password == "" {
      return Some(EmptyField);
    }
    credMap.Entries := credMap.Entries[site := Credentials(username, password)];
    return None;
  }

  /** What a successful Store leaves behind, as a property of the entries
      before and after: the new entry under `site`, every other entry as it
      was, and at most one new key. */
  lemma StoredEntries(before: map<string, Credentials>, site: string, c: Credentials)
    ensures var after := before[site := c];
      && site in after && after[site] == c
      && (forall k | k in before && k != site :: k in after && after[k] == before[k])
      && after.Keys == before.Keys + {site}
      && |after.Keys| <= |before.Keys| + 1
  {
    var after := before[site := c];
    assert after.Keys == before.Keys + {site};
    if site in before {
      assert before.Keys + {site} == before.Keys;
    }
  }

  /** Two Stores under the same site keep the second (last write wins),
      and an invalid Store between them changes nothing. */
  method StoreTwice(entries: map<string, Credentials>, site: string, first: Credentials, second: Credentials)
    returns (errFirst: Option<StoreError>, errBad: Option<StoreError>, errSecond: Option<StoreError>, result: map<string, Credentials>)
    requires site != ""
    requires first.Username != "" && first.Password != ""
    requires second.Username != "" && second.Password != ""
    ensures errFirst == None && errBad == Some(EmptyField) && errSecond == None
    ensures result == entries[site := second]
    ensures |result.Keys| <= |entries.Keys| + 1
  {
    var credMap := new CredMap(entries);
    errFirst := Store(credMap, site, first.Username, first.Password);
    errBad := Store(credMap, site, "", first.Password);
    errSecond := Store(credMap, site, second.Username, second.Password);
    result := credMap.Entries;
    assert result == entries[site := first][site := second];
    StoredEntries(entries, site, second);
  }

  /** A nil map is reported as such even when every field is empty too:
      the nil check comes first. */
  method StoreNil(site: string, username: string, password: string) returns (err: Option<StoreError>)
    ensures err == Some(NilMap)
  {
    err := Store(null, site, username, password);
  }
}
