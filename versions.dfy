/** The saved-versions page (client/src/pages/Versions.tsx): the
    case-insensitive title search and the shortened note on each card. */
module Versions {
  import opened Common
  import opened Text

  datatype Version = Version(id: string, projectTitle: string, note: Option<string>)

  /** The lower-cased title contains the lower-cased search. */
  predicate TitleMatches(v: Version, search: string)
  {
    Contains(ToLower(v.projectTitle), ToLower(search))
  }

  /** `versions.filter(...)`: the versions whose title matches, in order. */
  function FilterVersions(versions: seq<Version>, search: string): (r: seq<Version>)
    ensures |r| <= |versions|
    ensures forall v :: v in r <==> v in versions && TitleMatches(v, search)
  {
    if versions == [] then []
    else
      var init := versions[..|versions| - 1];
      var last := versions[|versions| - 1];
      assert versions == init + [last];
      FilterVersions(init, search) + (if TitleMatches(last, search) then [last] else [])
  }

  /** Filtering keeps the relative order of the versions: it distributes
      over concatenation. */
  lemma {:induction false} FilterVersionsAppend(a: seq<Version>, b: seq<Version>, search: string)
    ensures FilterVersions(a + b, search) == FilterVersions(a, search) + FilterVersions(b, search)
    decreases |b|
  {
    if b == [] {
      assert a + b == a;
    } else {
      var binit := b[..|b| - 1];
      assert a + b == (a + binit) + [b[|b| - 1]];
      assert (a + b)[..|a + b| - 1] == a + binit;
      FilterVersionsAppend(a, binit, search);
    }
  }

  /** An empty search keeps every version. */
  lemma {:induction false} EmptySearchKeepsAll(versions: seq<Version>)
    ensures FilterVersions(versions, "") == versions
  {
    if versions != [] {
      EmptySearchKeepsAll(versions[..|versions| - 1]);
      ContainsEmpty(ToLower(versions[|versions| - 1].projectTitle));
    }
  }

  /** Letter case in the search text does not matter: searching the
      lower-cased text selects the same versions. */
  lemma {:induction false} SearchIgnoresCase(versions: seq<Version>, search: string)
    ensures FilterVersions(versions, ToLower(search)) == FilterVersions(versions, search)
  {
    ToLowerIdempotent(search);
    if versions != [] {
      SearchIgnoresCase(versions[..|versions| - 1], search);
    }
  }

  const NoteLimit := 80

  /** What the card shows for a note: nothing for a missing or empty note,
      the note itself up to 80 characters, otherwise its first 80 characters
      followed by "...". */
  function ShownNote(note: Option<string>): (r: Option<string>)
    ensures r.Some? <==> note.Some? && note.value != ""
    ensures r.Some? ==> |r.value| <= NoteLimit + 3
    ensures r.Some? && |note.value| <= NoteLimit ==> r.value == note.value
    ensures r.Some? && |note.value| > NoteLimit ==>
      |r.value| == NoteLimit + 3 && r.value[..NoteLimit] == note.value[..NoteLimit] &&
      r.value[NoteLimit..] == "..."
  {
    if note.None? || note.value == "" then None
    else if |note.value| > NoteLimit then Some(note.value[..NoteLimit] + "...")
    else Some(note.value)
  }
}
