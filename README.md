# pasword-mango core, modelled in Dafny

pasword-mango is a single-user password vault with an HTTP front end. This
project models four parts of its Go source and proves properties of each.

- **The site-name index** (`data/search.go`, `data/node.go`). This is a
  26-way prefix tree (trie) of heap nodes. `Insert`, `SearchWord` and
  `Delete` first normalise the word: they remove every U+0020 space, then
  lower-case it. Each letter then picks the child slot `letter - 'a'`.
  `Delete` only clears the end-of-word mark and never removes a node.
  - The model is a class `Search.Trie` whose methods change nodes in place.
  - It has a ghost abstraction: the set of words held (`Words`), the node
    each path reaches (`NodeAt`), and the footprint (`Repr`).
  - `Valid()` ties the nodes' `Children` slots and `IsEnd` marks to that
    abstraction.
- **The alias and write primitives of the data layer** (`data/helpers.go`).
  - `getAlternativeSite`: the other spelling of a site name. It drops
    ".com", or swaps the public suffix for ".com".
  - `findSiteDocument`: the two-probe document lookup.
  - `updateLocked`: encrypt the password, then overwrite one document.
- **The in-memory credential map** (`data/cred.go`). `Store` is a
  validated upsert on a map that may be nil.
- **The request decision of `credentialsHandler`** (`handlers.go`). This
  covers:
  - how the site is taken from the URL path;
  - which requests are refused with 400 or 405;
  - which data operation, with which arguments, every other request reaches.

Go's string functions used by this code are modelled in `GoStrings`:
`TrimPrefix`, `TrimSuffix`, `Trim`/`TrimSpace`, `ReplaceAll(s, " ", "")`,
`ToLower` and `len`. A Dafny `string` is a sequence of code points, and
`len` of a Go string counts UTF-8 bytes; `GoStrings.ByteLen` models that
count.

Notes on the source as written:

- The doc comment of `getAlternativeSite` (`data/helpers.go:89`) says the
  function returns "" when the eTLD+1 cannot be determined. The code
  (`data/helpers.go:98-102`) returns `site + ".com"` in that case. The model
  follows the code, and `Helpers.AlternativeFallback` states the fallback.
  `Helpers.AlternativeEmpty` shows that the alternative is empty only for
  the site ".com" itself.
- `handlers.go:78-79` calls `data.Store(ctx, site, username, password)` and
  compares with `data.ErrAlreadyExists`. The `data.Store` of
  `data/cred.go:10` takes a map and no context, and no `ErrAlreadyExists`
  appears in the files modelled. Each file is modelled as written. The
  handler model stops at the data call it selects (`Handlers.Outcome`), and
  `Cred.Store` models the map-based function.
- The handler's length limits use Go's `len`, which counts bytes. Its error
  messages say "characters". `Handlers.PostLengthOrder` states the limits
  in bytes. `Handlers.AsciiSiteLimit` shows that the two readings agree
  for ASCII input.
- The trie indexes `Children` with `byte - 'a'` (`data/search.go:35`). That
  index is out of range, and Go panics, for any byte outside 'a'..'z'. This
  includes '.', digits and every byte of a multi-byte character, so a site
  name such as "example.com" cannot be inserted. The model makes this a
  precondition:
  - `Insert` requires every character of the normalised word to be a
    lower-case letter.
  - `SearchWord` and `Delete` require this only at the positions the walk
    reaches (`Search.WalkSafe`). This is exactly the condition under which
    the Go loop does not panic.

## Model

| member | source | states |
|---|---|---|
| GoStrings.TrimPrefix | handlers.go:23 | with the prefix present, prefix + result is the input; otherwise the input is unchanged |
| GoStrings.TrimSuffix | data/helpers.go:93 | with the suffix present, result + suffix is the input; otherwise the input is unchanged |
| GoStrings.TrimLeft | handlers.go:24 | the result is a suffix of the input, every character dropped satisfies the cut test, and the first kept one does not |
| GoStrings.TrimRight | handlers.go:24 | the result is a prefix of the input, every character dropped satisfies the cut test, and the last kept one does not |
| GoStrings.Trim | handlers.go:24 | the result is the slice of the input that remains once its leading and its trailing run of cut characters are dropped: every character before and after the slice is cut, and neither end of the slice is |
| GoStrings.AffixOfConcat | data/helpers.go:92-93 | HasPrefix (HasSuffix) holds exactly when the string is the affix followed (preceded) by some string |
| GoStrings.AsciiSpace | handlers.go:42-44 | unicode.IsSpace: among ASCII characters exactly tab, line feed, vertical tab, form feed, carriage return and space; NEL and NBSP are white space, U+200B is not |
| GoStrings.TrimSpace | handlers.go:42-44 | the result is the input without its leading and trailing white-space runs, and neither end of it is white space |
| GoStrings.TrimIdempotent | handlers.go:42-44 | trimming an already trimmed string changes nothing |
| GoStrings.RemoveSpaces | data/search.go:28 | the result has no U+0020 space, is no longer than the input, and a space-free input is returned as it is |
| GoStrings.RemoveSpacesKeepsOthers | data/search.go:28 | every character other than U+0020 is kept as many times as it occurs, and no space is |
| GoStrings.RemoveSpacesOfConcat | data/search.go:28 | removing spaces distributes over concatenation |
| GoStrings.LowerChar | data/search.go:28 | a lower-case letter is kept, a capital A-Z becomes the lower-case letter at the same position, a space stays a space, and the result is a lower-case ASCII letter exactly for the ASCII letters, U+0130 and U+212A |
| GoStrings.ToLower | data/search.go:28 | same length as the input, and character i is the lower case of input character i |
| GoStrings.Utf8Width | handlers.go:65 | a code point takes 1 to 4 bytes in UTF-8 |
| GoStrings.ByteLen | handlers.go:65-75 | the byte length lies between the character count and four times it, and equals the character count for ASCII strings |
| TrieNode.Node.constructor | data/node.go:17-21 | a new node holds its letter, ends no word, and has 26 child slots, all nil |
| Search.Normalize | data/search.go:28 | the normal form has no space and is no longer than the word |
| Search.Index | data/search.go:35 | a lower-case letter selects one of the 26 child slots |
| Search.Letter | data/node.go:10 | slot i stands for a lower-case letter whose index is i |
| Search.LetterOfIndex | data/search.go:35 | a letter and its slot index correspond one to one |
| Search.NormalizeOfLetters | data/search.go:28 | a word of lower-case letters is its own normal form |
| Search.NormalizeIdempotent | data/search.go:28 | normalising twice equals normalising once |
| Search.NormalizeIgnoresSpace | data/search.go:28 | inserting a space anywhere in a word leaves its normal form unchanged |
| Search.ToLowerOfConcat | data/search.go:28 | lower-casing distributes over concatenation |
| Search.NormalizeIgnoresCase | data/search.go:28 | words that agree up to case have the same normal form |
| Search.PrefixOfPath | data/search.go:38-41 | in a prefix-closed set of paths every prefix of a path is a path |
| Search.MissingPrefix | data/search.go:59-60 | once the walk finds a nil child, the whole word is not a path of the trie |
| Search.PrefixesStep | data/search.go:29-43 | the prefixes up to n + 1 are those up to n plus the next one |
| Search.ShapedAfterAdd | data/search.go:38-40 | hanging a new node for a letter below an existing node keeps the paths prefix-closed, lettered and rooted |
| Search.GrownStep | data/search.go:38-41 | one step of the insertion walk adds exactly the next prefix to the paths and keeps every existing node |
| Search.Trie.constructor | data/search.go:12-17 | a new trie is one root node "\0" that ends no word, so it holds no word |
| Search.Trie.Insert | data/search.go:20-47 | the words become the old words plus the normalised word; the paths grow by exactly its prefixes; every existing node stays at its path; the trie stays valid |
| Search.Trie.Descend | data/search.go:35-41 | one step of the walk reaches the child for the letter, creating it only when the slot is nil |
| Search.Trie.AddChild | data/search.go:38-40 | a fresh node, ending no word, is put in the empty slot of the letter and nothing else changes |
| Search.Trie.LinkedAfterAdd | data/search.go:38-40 | after the new node is added, every child slot still points to the node of its extended path, or is nil |
| Search.Trie.MarkedAfterAdd | data/search.go:38-40 | adding a node that ends no word keeps the end marks equal to the words held |
| Search.Trie.SetEnd | data/search.go:45 | marking (unmarking) the node of a path adds (removes) exactly that word and changes no node or path |
| Search.Trie.SearchWord | data/search.go:52-66 | true exactly when the normalised word is held; a path whose last node ends no word is not found |
| Search.Trie.Delete | data/search.go:71-84 | the normalised word is removed from the words, no node or path is removed, and nothing changes when its path is missing |
| Search.FreshTrieHoldsNothing | data/search.go:12-17 | a new trie finds no word, not even the empty one |
| Search.InsertThenSearch | data/search.go:20-66 | a word is found after it is inserted |
| Search.PrefixIsNotAWord | data/search.go:64-65 | a proper prefix of the only inserted word is not found |
| Search.DeleteThenSearch | data/search.go:20-84 | after a delete the word is gone and another inserted word is still found unless it normalises to the same word |
| Search.SearchIgnoresCase | data/search.go:28 | a word inserted in one spelling is found in any spelling that differs only in case |
| Helpers.AlternativeSite | data/helpers.go:90-129 | a ".com" site loses exactly its ".com"; every other site gets an alternative that ends in ".com" |
| Helpers.WithCom | data/helpers.go:101 | appending ".com" gives a string that ends in ".com", and trimming it gives the input back |
| Helpers.AlternativeEmpty | data/helpers.go:92-93 | the alternative is empty exactly for the site ".com" |
| Helpers.AlternativeFallback | data/helpers.go:97-109 | without an eTLD+1 or an ICANN suffix the alternative is the site with ".com" appended, not "" |
| Helpers.AlternativeOfRegistrable | data/helpers.go:112-117 | base.etld becomes base.com (example.co.uk to example.com) |
| Helpers.AlternativeOfSubdomain | data/helpers.go:119-125 | sub.base.etld becomes sub.base.com (www.example.co.uk to www.example.com) |
| Helpers.AlternativeRoundTrip | data/helpers.go:92-102 | for names the suffix list cannot split, a name and its ".com" form are each other's alternative |
| Helpers.ProbeDoc | data/helpers.go:51 | a probe finds only stored documents, and finds every stored one whose read does not fail |
| Helpers.FindSiteDocument | data/helpers.go:48-73 | the literal key is probed first; the non-empty alternative is probed second exactly when the first probe was NotFound; a result is a stored document under one of the two keys; every failure is ErrNotFound |
| Helpers.LiteralWins | data/helpers.go:53-55 | a document under the literal name is returned after one probe |
| Helpers.AlternativeFound | data/helpers.go:59-65 | a document only under the alternative name is found through it |
| Helpers.FailedProbeStops | data/helpers.go:59-72 | a first probe that fails other than with NotFound ends the lookup with ErrNotFound |
| Helpers.UpdateLocked | data/helpers.go:23-39 | a failed encryption or a failed write is reported and leaves the collection unchanged; otherwise the document under the exact site name becomes username plus ciphertext |
| Helpers.UpdateThenFind | data/helpers.go:23-73 | after a successful update the site's document is found under its literal name with the new contents, and other documents are unchanged |
| Cred.StoreCheck | data/cred.go:11-16 | a nil map is reported first, then any empty field; the inputs are accepted exactly when the map exists and no field is empty |
| Cred.Store | data/cred.go:10-19 | rejected inputs leave the map unchanged; accepted ones set the entry under the site to the new credentials, overwriting |
| Cred.StoredEntries | data/cred.go:17 | an upsert holds the new entry, keeps every other entry, and adds at most one key |
| Cred.StoreTwice | data/cred.go:10-19 | the last valid write wins, and an invalid write between two valid ones changes nothing |
| Cred.StoreNil | data/cred.go:11-13 | a nil map is reported even when every field is empty as well |
| Handlers.SiteFromPath | handlers.go:22-25 | the site is what remains of the path, after one leading "/credentials" is removed, once its leading and trailing runs of '/' are dropped; it neither starts nor ends with '/' |
| Handlers.SiteFromResourcePath | handlers.go:22-25 | "/credentials/<site>" and "/credentials/<site>/" both name the site |
| Handlers.TrimSlashes | handlers.go:24 | trimming '/' from "/site" or "/site/" gives the site |
| Handlers.PostCheck | handlers.go:46-76 | a POST body passes exactly when all three fields are non-empty and within their byte limits |
| Handlers.PostCheckOrder | handlers.go:46-58 | the empty-field checks come first, site before username before password |
| Handlers.PostLengthOrder | handlers.go:60-76 | the length checks apply only to bodies with all three fields present, site before username before password |
| Handlers.AsciiSiteLimit | handlers.go:61-68 | for an ASCII site the byte limit is the 255-character limit |
| Handlers.Trimmed | handlers.go:42-44 | each trimmed field is its own TrimSpace: trimming again changes nothing |
| Handlers.TrimmedFixed | handlers.go:42-44 | fields free of surrounding white space are unchanged by trimming |
| Handlers.CheckThenStore | handlers.go:46-78 | a trimmed body is stored, with its fields, exactly when every check passes; otherwise the refusal names the first failed check |
| Handlers.Post | handlers.go:36-78 | an undecodable body is refused; otherwise the body is stored exactly when its trimmed fields pass the checks, with the trimmed fields, and each refusal names the first failed check |
| Handlers.PostTrimsFirst | handlers.go:41-44 | white space around the fields makes no difference to the outcome |
| Handlers.Get | handlers.go:89-107 | an empty site lists everything; any other site is retrieved by name |
| Handlers.Put | handlers.go:109-126 | a missing site is refused before the body is read; the update happens exactly when the site is present, the body decodes, and the trimmed username and password are non-empty; it carries the trimmed values |
| Handlers.Delete | handlers.go:133-138 | a missing site is refused, and any other site is deleted by name |
| Handlers.Route | handlers.go:21-151 | 405 exactly for methods other than POST, GET, PUT and DELETE; only a POST with a decodable body stores |
| Handlers.Dispatch | handlers.go:28-150 | each of the four methods reaches its own case, with the site taken from the path |

## Left out

- Go strings that are not valid UTF-8 are not modelled. A Dafny `string`
  holds code points, but a URL path can carry any byte through
  percent-encoding (`/credentials/%FF` names the one-byte site "\xff").
  For such a path the model does not say what `credentialsHandler` does.
- I/O is not modelled. This covers HTTP responses and status writing, JSON
  encoding and decoding, logging (`data/helpers.go:69-71`) and printing
  (`data/helpers.go:37`). A body that fails to decode is the `None` of an
  `Option`.
- The Firestore client is modelled as a map plus a set of document IDs on
  which the backend fails (`Helpers.Firestore`). Deadlines, cancellation
  and retries are not modelled.
- `encrypt` is a function-typed parameter of `Helpers.UpdateLocked`. The
  cipher is not part of this model.
- The public suffix list is a pair of function-typed parameters
  (`Helpers.SuffixList`). Its contents are not modelled, and
  `Helpers.SplitsAs` states how the list answers in the lemmas that need it.
- The handler's data calls (`data.Store`, `data.Show`, `data.Retrieve`,
  `data.Update`, `data.Delete` with a context) and their status codes
  (201, 404, 409, 500) are not modelled. Those functions are not part of
  this model. `Handlers.Outcome` records which call is made and with what
  arguments.
- The process-wide mutex that callers of `updateLocked` must hold is not
  modelled. Each operation is modelled as one atomic step.
- GoStrings.LowerChar: models `unicode.ToLower` only for the ASCII capitals
  and the two non-ASCII runes that lower-case to ASCII letters. Every other
  rune is left as it is. Only 'a'..'z' can index the trie, so no other rune
  changes what the trie does.
- Search.Trie.Insert: requires every character of the normalised word to be
  a lower-case letter, because the Go code panics on any other byte. Its
  error result is always nil and is not modelled.
- Search.Trie.SearchWord and Search.Trie.Delete: require `WalkSafe`, which
  means no non-letter is reached on an existing path, because Go panics
  there.
- The trie walks code points where Go walks bytes. Under the preconditions
  above, every character walked is an ASCII letter, so the two walks agree.
- TrieNode.Node: `Children` is a `seq<Node?>` of length 26 rather than an
  array. Go's `[26]*Node` is a value array inside the node, and the node is
  the reference. The ghost `Path` of each node exists only for the proofs.
- Models.Credentials vs `server/data/models.go`: the second data package
  of the repository is not part of this model.
