/**
  `GPCRFastaParser._extract_uniref_id`: the UniRef cluster id of a FASTA
  header. The header is searched for the pattern `UniRef\d+_([A-Z0-9]+)`;
  the capture group of the first match is the id. Without a match, the id is
  the header's first whitespace-separated token with every `>` removed.

  The pattern's semantics is stated first, as ghost predicates over match
  positions; then a scanner computes the first match; lemmas connect the two.
 */
module UniRefId {
  import opened Results
  import opened PyStr

  const Prefix: string := "UniRef"

  /** A match of `UniRef\d+_([A-Z0-9]+)` that starts at `i`, has its `_` at
      `u` and captures `h[u+1..e]`: one or more digits between the prefix and
      `u`, one or more upper-case letters or digits in the capture. Any
      capture length counts as a match here; the greedy choice is made by
      `IsFirstMatch`. */
  ghost predicate IsMatch(h: string, i: int, u: int, e: int) {
    0 <= i && i + |Prefix| < u && u + 1 < e <= |h|
    && h[i..i + |Prefix|] == Prefix
    && (forall k :: i + |Prefix| <= k < u ==> Digit.Has(h[k]))
    && h[u] == '_'
    && (forall k :: u + 1 <= k < e ==> UpperOrDigit.Has(h[k]))
  }

  ghost predicate HasMatch(h: string) {
    exists i, u, e :: IsMatch(h, i, u, e)
  }

  /** The order in which a backtracking matcher tries matches: the leftmost
      start first, then (both quantifiers being greedy) the longest digit run,
      then the longest capture. */
  ghost predicate TriedFirst(i: int, u: int, e: int, i': int, u': int, e': int) {
    i < i' || (i == i' && (u' < u || (u == u' && e' <= e)))
  }

  /** The match `re.search` reports: a match tried before every other one. */
  ghost predicate IsFirstMatch(h: string, i: int, u: int, e: int) {
    IsMatch(h, i, u, e)
    && forall i', u', e' :: IsMatch(h, i', u', e') ==> TriedFirst(i, u, e, i', u', e')
  }

  /** Where a match sits in the header. */
  datatype Span = Span(start: nat, underscore: nat, end: nat)

  /** The pattern anchored at `i`: the prefix, the maximal digit run, `_`,
      and the maximal run of capture characters. */
  function MatchAt(h: string, i: nat): (r: Option<Span>)
    ensures r.Some? ==> r.value.start == i && IsMatch(h, i, r.value.underscore, r.value.end)
    ensures r.Some? ==> forall u', e' :: IsMatch(h, i, u', e') ==> u' == r.value.underscore && e' <= r.value.end
    ensures r.None? ==> forall u', e' :: !IsMatch(h, i, u', e')
  {
    if i + |Prefix| <= |h| && h[i..i + |Prefix|] == Prefix then
      var u := RunEnd(h, i + |Prefix|, Digit);
      if i + |Prefix| < u < |h| && h[u] == '_' then
        var e := RunEnd(h, u + 1, UpperOrDigit);
        if u + 1 < e then Some(Span(i, u, e)) else None
      else None
    else None
  }

  /** Scans start positions `from, from + 1, ...` for the first match. */
  function Search(h: string, from: nat): (r: Option<Span>)
    ensures r.Some? ==> from <= r.value.start && IsMatch(h, r.value.start, r.value.underscore, r.value.end)
    ensures r.Some? ==> forall i', u', e' :: from <= i' && IsMatch(h, i', u', e') ==>
                          TriedFirst(r.value.start, r.value.underscore, r.value.end, i', u', e')
    ensures r.None? ==> forall i', u', e' :: from <= i' ==> !IsMatch(h, i', u', e')
    decreases |h| - from
  {
    if from >= |h| then None
    else
      match MatchAt(h, from)
      case Some(m) => Some(m)
      case None => Search(h, from + 1)
  }

  /** The fallback: `header.split()[0].replace('>', '')`. */
  function FallbackId(header: string): (r: Result<string>)
    ensures r.Err? <==> AllIn(header, Space)
    ensures r.Err? ==> r.error == NoHeaderToken
    ensures r.Ok? ==> AllIn(r.value, NonSpace) && '>' !in r.value
  {
    var tokens := Split(header);
    if tokens == [] then Err(NoHeaderToken)
    else
      assert tokens[0] in tokens;
      var id := Remove(tokens[0], '>');
      assert forall k :: 0 <= k < |id| ==> NonSpace.Has(id[k]) by {
        forall k | 0 <= k < |id| ensures NonSpace.Has(id[k]) {
          RemoveMultiset(tokens[0], '>');
          assert id[k] in multiset(id);
          assert id[k] in multiset(tokens[0]);
        }
      }
      Ok(id)
  }

  /** `_extract_uniref_id`. */
  function ExtractUniRefId(header: string): (r: Result<string>)
    ensures forall i, u, e :: IsFirstMatch(header, i, u, e) ==> r == Ok(header[u + 1..e])
    ensures HasMatch(header) ==> r.Ok? && r.value != [] && AllIn(r.value, UpperOrDigit)
    ensures !HasMatch(header) ==> r == FallbackId(header)
  {
    match Search(header, 0)
    case Some(m) => Ok(header[m.underscore + 1..m.end])
    case None => FallbackId(header)
  }

  /** Without a match, the id is the first whitespace-separated token with
      its `>` characters removed: no whitespace and no `>` in it; an empty or
      all-whitespace header is an error. */
  lemma NoMatchUsesFirstToken(header: string)
    requires !HasMatch(header)
    ensures var r := ExtractUniRefId(header);
      && (r.Err? <==> AllIn(header, Space))
      && (r.Err? ==> r.error == NoHeaderToken)
      && (r.Ok? ==> '>' !in r.value && AllIn(r.value, NonSpace)
                    && FirstTokenAt(header, Split(header)[0], RunEnd(header, 0, Space))
                    && r.value == Remove(Split(header)[0], '>'))
  {
    if !AllIn(header, Space) {
      SplitFirstToken(header);
    }
  }

  /** Whenever the pattern occurs, `re.search` has a match to report. */
  lemma FirstMatchExists(h: string)
    requires HasMatch(h)
    ensures exists i, u, e :: IsFirstMatch(h, i, u, e)
  {
    var m := Search(h, 0).value;
    assert IsFirstMatch(h, m.start, m.underscore, m.end);
  }

  /** `re.search` reports at most one match. */
  lemma FirstMatchUnique(h: string, i: int, u: int, e: int, i': int, u': int, e': int)
    requires IsFirstMatch(h, i, u, e) && IsFirstMatch(h, i', u', e')
    ensures i == i' && u == u' && e == e'
  {
  }
}
