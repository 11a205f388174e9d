/** The few operations of Go's `strings` package (and of `len` on a Go string)
    that the vault's core relies on, over Dafny strings.

    A Dafny `string` is a sequence of Unicode code points; a Go string is a
    sequence of bytes, which is UTF-8 for every string the model covers: the
    two views then agree except for `len`, which counts bytes (`ByteLen`).
    Go strings that are not valid UTF-8 (a URL path may carry any byte
    through percent-encoding) have no counterpart here. */
module GoStrings {

  predicate HasPrefix(s: string, prefix: string) {
    |prefix| <= |s| && s[..|prefix|] == prefix
  }

  predicate HasSuffix(s: string, suffix: string) {
    |suffix| <= |s| && s[|s| - |suffix|..] == suffix
  }

  /** strings.HasPrefix and strings.HasSuffix hold exactly when the string
      is the prefix (suffix) followed (preceded) by some other string. */
  lemma AffixOfConcat(s: string, affix: string)
    ensures HasPrefix(s, affix) <==> exists t :: affix + t == s
    ensures HasSuffix(s, affix) <==> exists t :: t + affix == s
  {
    if HasPrefix(s, affix) {
      assert affix + s[|affix|..] == s;
    }
    if HasSuffix(s, affix) {
      assert s[..|s| - |affix|] + affix == s;
    }
    forall t | affix + t == s
      ensures HasPrefix(s, affix)
    {
      assert s[..|affix|] == affix;
    }
    forall t | t + affix == s
      ensures HasSuffix(s, affix)
    {
      assert s[|t|..] == affix;
    }
  }

  /** strings.TrimPrefix: removes one leading `prefix`, if there is one. */
  function TrimPrefix(s: string, prefix: string): (r: string)
    ensures HasPrefix(s, prefix) ==> prefix + r == s
    ensures !HasPrefix(s, prefix) ==> r == s
  {
    if HasPrefix(s, prefix) then s[|prefix|..] else s
  }

  /** strings.TrimSuffix: removes one trailing `suffix`, if there is one. */
  function TrimSuffix(s: string, suffix: string): (r: string)
    ensures HasSuffix(s, suffix) ==> r + suffix == s
    ensures !HasSuffix(s, suffix) ==> r == s
  {
    if HasSuffix(s, suffix) then s[..|s| - |suffix|] else s
  }

  lemma HasSuffixOfConcat(a: string, b: string)
    ensures HasSuffix(a + b, b)
  {
    assert (a + b)[|a|..] == b;
  }

  lemma TrimSuffixOfConcat(a: string, b: string)
    ensures TrimSuffix(a + b, b) == a
  {
    HasSuffixOfConcat(a, b);
    assert (a + b)[..|a|] == a;
  }

  /** strings.TrimLeftFunc: drops every leading character `cut` holds of. */
  function TrimLeft(s: string, cut: char -> bool): (r: string)
    ensures |r| <= |s| && r == s[|s| - |r|..]
    ensures r == [] || !cut(r[0])
    ensures forall i :: 0 <= i < |s| - |r| ==> cut(s[i])
    decreases |s|
  {
    if s != [] && cut(s[0]) then TrimLeft(s[1..], cut) else s
  }

  /** strings.TrimRightFunc: drops every trailing character `cut` holds of. */
  function TrimRight(s: string, cut: char -> bool): (r: string)
    ensures |r| <= |s| && r == s[..|r|]
    ensures r == [] || !cut(r[|r| - 1])
    ensures forall i :: |r| <= i < |s| ==> cut(s[i])
    decreases |s|
  {
    if s != [] && cut(s[|s| - 1]) then TrimRight(s[..|s| - 1], cut) else s
  }

  /** `r` is the slice of `s` that starts at `k`, and every character of
      `s` before it or after it is one `cut` holds of. */
  predicate CutAround(s: string, r: string, k: int, cut: char -> bool) {
    && 0 <= k && k + |r| <= |s| && r == s[k..k + |r|]
    && (forall i :: 0 <= i < k ==> cut(s[i]))
    && (forall i :: k + |r| <= i < |s| ==> cut(s[i]))
  }

  /** strings.TrimFunc: drops the leading and the trailing characters `cut`
      holds of. strings.Trim(s, "/") is Trim(s, c => c == '/'). */
  function Trim(s: string, cut: char -> bool): (r: string)
    ensures r == [] || (!cut(r[0]) && !cut(r[|r| - 1]))
    ensures CutAround(s, r, |s| - |TrimLeft(s, cut)|, cut)
  {
    var left := TrimLeft(s, cut);
    var r := TrimRight(left, cut);
    TrimmedSlice(s, left, r, cut);
    r
  }

  /** Where the trimmed string sits in `s`: `left` is a suffix of `s`, and
      `r` a prefix of `left` followed only by cut characters. */
  lemma TrimmedSlice(s: string, left: string, r: string, cut: char -> bool)
    requires |left| <= |s| && left == s[|s| - |left|..]
    requires |r| <= |left| && r == left[..|r|]
    requires forall i :: |r| <= i < |left| ==> cut(left[i])
    ensures var k := |s| - |left|; r == s[k..k + |r|] && forall i :: k + |r| <= i < |s| ==> cut(s[i])
  {
    var k := |s| - |left|;
    forall i | k + |r| <= i < |s|
      ensures cut(s[i])
    {
      assert s[i] == left[i - k];
    }
  }

  /** Trimming twice with the same test trims nothing more. */
  lemma {:induction false} TrimIdempotent(s: string, cut: char -> bool)
    ensures Trim(Trim(s, cut), cut) == Trim(s, cut)
  {
    var t := Trim(s, cut);
    if t != [] {
      assert TrimLeft(t, cut) == t;
      assert TrimRight(t, cut) == t;
    }
  }

  /** unicode.IsSpace: the ASCII white space, NEL, NBSP and the other code
      points with the Unicode White_Space property. */
  predicate IsSpace(c: char) {
    || '\t' <= c <= '\r' || c == ' ' || c == '\U{0085}' || c == '\U{00A0}' || c == '\U{1680}'
    || '\U{2000}' <= c <= '\U{200A}' || c == '\U{2028}' || c == '\U{2029}' || c == '\U{202F}'
    || c == '\U{205F}' || c == '\U{3000}'
  }

  /** Among ASCII characters the white space is tab, line feed, vertical
      tab, form feed, carriage return and space; NEL and NBSP count too, the
      zero-width space U+200B does not. */
  lemma AsciiSpace(c: char)
    ensures c as int < 0x80 ==> (IsSpace(c) <==> c in "\t\n\U{000B}\U{000C}\r ")
    ensures IsSpace('\U{0085}') && IsSpace('\U{00A0}') && !IsSpace('\U{200B}')
  {
  }

  /** strings.TrimSpace: `s` without its leading and trailing white space. */
  function TrimSpace(s: string): (r: string)
    ensures r == [] || (!IsSpace(r[0]) && !IsSpace(r[|r| - 1]))
    ensures CutAround(s, r, |s| - |TrimLeft(s, IsSpace)|, IsSpace)
  {
    Trim(s, IsSpace)
  }

  predicate NoSpace(s: string) {
    forall i :: 0 <= i < |s| ==> s[i] != ' '
  }

  /** strings.ReplaceAll(s, " ", ""): removes every U+0020 space (and no
      other white space). */
  function RemoveSpaces(s: string): (r: string)
    ensures |r| <= |s|
    ensures NoSpace(r)
    ensures NoSpace(s) ==> r == s
  {
    if s == [] then []
    else (if s[0] == ' ' then [] else [s[0]]) + RemoveSpaces(s[1..])
  }

  /** RemoveSpaces deletes the spaces and keeps every other character, as
      many times as it occurs. */
  lemma {:induction false} RemoveSpacesKeepsOthers(s: string)
    ensures multiset(RemoveSpaces(s)) == multiset(s)[' ' := 0]
  {
    if s != [] {
      RemoveSpacesKeepsOthers(s[1..]);
      assert s == [s[0]] + s[1..];
      assert multiset(s) == multiset([s[0]]) + multiset(s[1..]);
    }
  }

  lemma {:induction false} RemoveSpacesOfConcat(a: string, b: string)
    ensures RemoveSpaces(a + b) == RemoveSpaces(a) + RemoveSpaces(b)
  {
    if a == [] {
      assert a + b == b;
    } else {
      assert (a + b)[0] == a[0] && (a + b)[1..] == a[1..] + b;
      RemoveSpacesOfConcat(a[1..], b);
    }
  }

  /** unicode.ToLower restricted to what can matter to the core: the ASCII
      capitals, and the two non-ASCII runes whose simple lower case is an
      ASCII letter (U+0130 LATIN CAPITAL LETTER I WITH DOT ABOVE and U+212A
      KELVIN SIGN). Every other rune is kept as it is. */
  function LowerChar(c: char): (d: char)
    ensures d == ' ' <==> c == ' '
    ensures 'a' <= c <= 'z' ==> d == c
    ensures 'A' <= c <= 'Z' ==> d as int - 'a' as int == c as int - 'A' as int
    ensures 'a' <= d <= 'z' <==> ('a' <= c <= 'z' || 'A' <= c <= 'Z' || c == '\U{0130}' || c == '\U{212A}')
  {
    if 'A' <= c <= 'Z' then (c as int + 32) as char
    else if c == '\U{0130}' then 'i'
    else if c == '\U{212A}' then 'k'
    else c
  }

  /** strings.ToLower, rune by rune. */
  function ToLower(s: string): (r: string)
    ensures |r| == |s|
    ensures forall i :: 0 <= i < |s| ==> r[i] == LowerChar(s[i])
  {
    if s == [] then [] else [LowerChar(s[0])] + ToLower(s[1..])
  }

  /** The number of bytes in the UTF-8 encoding of `c`. */
  function Utf8Width(c: char): (n: nat)
    ensures 1 <= n <= 4
  {
    if c as int < 0x80 then 1
    else if c as int < 0x800 then 2
    else if c as int < 0x10000 then 3
    else 4
  }

  /** Go's `len` of the UTF-8 encoding of `s`. */
  function ByteLen(s: string): (n: nat)
    ensures |s| <= n <= 4 * |s|
    ensures (forall i :: 0 <= i < |s| ==> s[i] as int < 0x80) ==> n == |s|
  {
    if s == [] then 0 else Utf8Width(s[0]) + ByteLen(s[1..])
  }
}
