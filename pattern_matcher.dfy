/**
  The pattern matcher, `match_mapping`: route a top-level directory name to
  the destination name of the mapping entry whose wildcard-stripped key is
  the longest prefix of the name, the earliest entry winning among equals.
*/
module PatternMatcher {
  import opened Wrappers
  import opened Text
  import opened OrderedMaps
  import opened MappingLoader

  /** A key with all its trailing `*` removed (`source_pattern.rstrip("*")`). */
  function KeyPrefix(key: string): string {
    StripTrailing(key, '*')
  }

  /** The entry's prefix is non-empty and `name` starts with it. */
  predicate Candidate(name: string, e: Entry<string, string>) {
    var p := KeyPrefix(e.key);
    p != "" && p <= name
  }

  /** The length of an entry's prefix. */
  function PrefixLength(e: Entry<string, string>): nat {
    |KeyPrefix(e.key)|
  }

  /**
    Entry `i` is the one the lookup must choose: it is a candidate, no
    candidate has a longer prefix, and every earlier candidate's prefix is
    strictly shorter (the first of equally long prefixes wins).
  */
  ghost predicate IsBest(name: string, m: Mapping, i: int) {
    && 0 <= i < |m|
    && Candidate(name, m[i])
    && (forall j :: 0 <= j < |m| && Candidate(name, m[j]) ==> PrefixLength(m[j]) <= PrefixLength(m[i]))
    && (forall j :: 0 <= j < i && Candidate(name, m[j]) ==> PrefixLength(m[j]) < PrefixLength(m[i]))
  }

  /** At most one entry is the best. */
  lemma BestIsUnique(name: string, m: Mapping, i: int, j: int)
    requires IsBest(name, m, i) && IsBest(name, m, j)
    ensures i == j
  {
  }

  /**
    The position of the best entry, entries being considered in iteration
    order; `None` exactly when no entry is a candidate.
  */
  function BestIndex(name: string, m: Mapping): (r: Option<nat>)
    ensures r.None? <==> forall i :: 0 <= i < |m| ==> !Candidate(name, m[i])
    ensures r.Some? ==> IsBest(name, m, r.value)
  {
    if m == [] then None
    else
      var init := m[..|m| - 1];
      var last := m[|m| - 1];
      assert m == init + [last];
      match BestIndex(name, init)
      case None =>
        NoneExtended(name, init, last);
        if Candidate(name, last) then Some(|init|) else None
      case Some(i) =>
        BestExtended(name, init, last, i);
        if Candidate(name, last) && PrefixLength(last) > PrefixLength(init[i]) then Some(|init|) else Some(i)
  }

  /** With no candidate so far, a candidate entry appended at the end is the best. */
  lemma NoneExtended(name: string, m: Mapping, e: Entry<string, string>)
    requires forall i :: 0 <= i < |m| ==> !Candidate(name, m[i])
    ensures Candidate(name, e) ==> IsBest(name, m + [e], |m|)
    ensures !Candidate(name, e) ==> forall i :: 0 <= i < |m + [e]| ==> !Candidate(name, (m + [e])[i])
  {
  }

  /**
    An entry appended at the end takes over only when its prefix is strictly
    longer than the best one so far.
  */
  lemma BestExtended(name: string, m: Mapping, e: Entry<string, string>, i: int)
    requires IsBest(name, m, i)
    ensures Candidate(name, e) && PrefixLength(e) > PrefixLength(m[i]) ==> IsBest(name, m + [e], |m|)
    ensures !(Candidate(name, e) && PrefixLength(e) > PrefixLength(m[i])) ==> IsBest(name, m + [e], i)
  {
  }

  /** The destination name the lookup returns. */
  function Match(name: string, m: Mapping): (r: Option<string>)
    ensures r.None? <==> forall i :: 0 <= i < |m| ==> !Candidate(name, m[i])
    ensures r.Some? ==> exists i :: IsBest(name, m, i) && r.value == m[i].value
  {
    match BestIndex(name, m)
    case None => None
    case Some(i) => Some(m[i].value)
  }

  /**
    `match_mapping`: one pass over the entries in iteration order, keeping
    the best destination so far and the length of its prefix (-1 for none).
  */
  method MatchMapping(level1Name: string, mapping: Mapping) returns (bestMatch: Option<string>)
    ensures bestMatch == Match(level1Name, mapping)
  {
    bestMatch := None;
    var bestLen := -1;
    for n := 0 to |mapping|
      invariant match BestIndex(level1Name, mapping[..n])
                case None => bestMatch == None && bestLen == -1
                case Some(i) => i < n && bestMatch == Some(mapping[i].value) && bestLen == PrefixLength(mapping[i])
    {
      assert mapping[..n + 1][..n] == mapping[..n];
      var sourcePattern := mapping[n].key;
      var destName := mapping[n].value;
      var prefix := StripTrailing(sourcePattern, '*');
      if prefix == "" {
        continue;
      }
      if prefix <= level1Name && |prefix| > bestLen {
        bestMatch := Some(destName);
        bestLen := |prefix|;
      }
    }
    assert mapping[..|mapping|] == mapping;
  }

  /**
    All trailing `*` are removed, so a key made of `*` only has an empty
    prefix and is never a candidate, whatever the name.
  */
  lemma StarsOnlyNeverMatch(name: string, e: Entry<string, string>)
    requires forall i :: 0 <= i < |e.key| ==> e.key[i] == '*'
    ensures !Candidate(name, e)
  {
  }
}
