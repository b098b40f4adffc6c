/** The name lists of a work: topic names from its ranked concepts
    (`_topic_names`) and author names from its authorships. Both look at the
    first five entries only and skip entries without a usable name. */
module Names {
  import opened Optional
  import opened Sequences

  /** How many leading entries are looked at. */
  const MaxNames := 5

  datatype Concept = Concept(displayName: Option<string>)

  datatype Author = Author(displayName: Option<string>)

  /** `author` is None when the authorship has no `author` object. */
  datatype Authorship = Authorship(author: Option<Author>)

  /** The first five entries (all of them when there are fewer). */
  function Head<T>(xs: seq<T>): (r: seq<T>)
    ensures |r| == Min(MaxNames, |xs|)
    ensures IsPrefix(r, xs)
  {
    xs[..Min(MaxNames, |xs|)]
  }

  /** The present, non-empty names among the first five entries, in order. */
  function FirstNames(names: seq<Option<string>>): (r: seq<string>)
    ensures |r| <= MaxNames
    ensures |r| == CountTruthy(Head(names))
    ensures forall i :: 0 <= i < |r| ==> r[i] != "" && Some(r[i]) in Head(names)
    ensures forall k :: 0 <= k < |names| && k < MaxNames && Truthy(names[k]) ==>
              CountTruthy(names[..k]) < |r| && r[CountTruthy(names[..k])] == names[k].value
    ensures IsSubsequence(Lift(r), Head(names))
  {
    KeepTruthyIsSubsequence(Head(names));
    KeepTruthyMembers(Head(names));
    HeadPositions(names);
    KeepTruthy(Head(names))
  }

  /** Each named entry among the first five lands after the named entries
      before it. */
  lemma HeadPositions(names: seq<Option<string>>)
    ensures forall k :: 0 <= k < |names| && k < MaxNames && Truthy(names[k]) ==>
              CountTruthy(names[..k]) < |KeepTruthy(Head(names))|
              && KeepTruthy(Head(names))[CountTruthy(names[..k])] == names[k].value
  {
    var h := Head(names);
    KeepTruthyPositions(h);
    forall k | 0 <= k < |names| && k < MaxNames && Truthy(names[k])
      ensures CountTruthy(names[..k]) < |KeepTruthy(h)| && KeepTruthy(h)[CountTruthy(names[..k])] == names[k].value
    {
      assert h[..k] == names[..k];
      assert h[k] == names[k];
    }
  }

  function ConceptNames(concepts: seq<Concept>): (r: seq<Option<string>>)
    ensures |r| == |concepts|
    ensures forall k :: 0 <= k < |concepts| ==> r[k] == concepts[k].displayName
  {
    seq(|concepts|, k requires 0 <= k < |concepts| => concepts[k].displayName)
  }

  /** The display name of an authorship's author; None when the author
      object or its name is missing. */
  function AuthorName(a: Authorship): Option<string> {
    match a.author
    case None => None
    case Some(au) => au.displayName
  }

  function AuthorNames(authorships: seq<Authorship>): (r: seq<Option<string>>)
    ensures |r| == |authorships|
    ensures forall k :: 0 <= k < |authorships| ==> r[k] == AuthorName(authorships[k])
  {
    seq(|authorships|, k requires 0 <= k < |authorships| => AuthorName(authorships[k]))
  }

  /** `_topic_names`: at most five names, each the display name of one of
      the first five concepts, every named one of those kept, in order. */
  function TopicNames(concepts: seq<Concept>): (r: seq<string>)
    ensures |r| <= MaxNames
    ensures forall i :: 0 <= i < |r| ==> r[i] != "" && Some(r[i]) in Head(ConceptNames(concepts))
    ensures |r| == CountTruthy(Head(ConceptNames(concepts)))
    ensures forall k :: 0 <= k < |concepts| && k < MaxNames && Truthy(concepts[k].displayName) ==>
              CountTruthy(ConceptNames(concepts)[..k]) < |r|
              && r[CountTruthy(ConceptNames(concepts)[..k])] == concepts[k].displayName.value
    ensures IsSubsequence(Lift(r), Head(ConceptNames(concepts)))
  {
    FirstNames(ConceptNames(concepts))
  }

  /** The author list of `fetch_openalex_papers`: the same trimming, over
      the display names of the first five authorships. */
  function AuthorList(authorships: seq<Authorship>): (r: seq<string>)
    ensures |r| <= MaxNames
    ensures forall i :: 0 <= i < |r| ==> r[i] != "" && Some(r[i]) in Head(AuthorNames(authorships))
    ensures |r| == CountTruthy(Head(AuthorNames(authorships)))
    ensures forall k :: 0 <= k < |authorships| && k < MaxNames && Truthy(AuthorName(authorships[k])) ==>
              CountTruthy(AuthorNames(authorships)[..k]) < |r|
              && r[CountTruthy(AuthorNames(authorships)[..k])] == AuthorName(authorships[k]).value
    ensures IsSubsequence(Lift(r), Head(AuthorNames(authorships)))
  {
    FirstNames(AuthorNames(authorships))
  }

  /** Entries after the fifth never contribute: appending entries to a list
      of five or more leaves the names unchanged. */
  lemma OnlyFirstFiveCount(names: seq<Option<string>>, more: seq<Option<string>>)
    requires |names| >= MaxNames
    ensures FirstNames(names + more) == FirstNames(names)
  {
    assert Head(names + more) == Head(names);
  }
}
