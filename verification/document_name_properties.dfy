/**
 Properties of `DocumentNames.GetValue` and of its separator heuristic:
 the fallback, the pass-through cases, the precedence of the head over
 the tail, the shape of the tail-wins result, and agreement with the
 search-free description `IsDerivedName`.
 */
module DocumentNameProperties {
  import opened Strings
  import opened DocumentNames
  import Paths

  /**
   Without a title the result does not depend on the resolver or the
   extension test at all.
   */
  lemma FallbackIgnoresCollaborators(
    d: DocumentName,
    resolve1: PathFilter -> string, hasExt1: string -> bool,
    resolve2: PathFilter -> string, hasExt2: string -> bool)
    requires !HasValue(Source(d))
    ensures GetValue(d, resolve1, hasExt1) == GetValue(d, resolve2, hasExt2)
  {
  }

  /**
   With a title, the resolver is consulted only for the name it gives the
   document's own filter.
   */
  lemma ResolvedNameDeterminesValue(
    d: DocumentName, resolve1: PathFilter -> string, resolve2: PathFilter -> string, hasExt: string -> bool)
    requires resolve1(d.filter) == resolve2(d.filter)
    ensures GetValue(d, resolve1, hasExt) == GetValue(d, resolve2, hasExt)
  {
  }

  /** A resolved name without the separator is returned unchanged. */
  lemma NoSeparatorPassesThrough(dest: string, hasExt: string -> bool)
    requires !Contains(dest, Separator)
    ensures ApplySeparatorHeuristic(dest, hasExt) == dest
  {
  }

  /** The split the heuristic uses is the one at the last separator. */
  lemma SplitIsAtLastSeparator(dest: string, pos: int)
    requires IsLastOccurrence(dest, Separator, pos)
    ensures SplitAtSeparator(dest) == Some(Split(dest[..pos], dest[pos..]))
  {
    LastIndexOfIsTheLastOccurrence(dest, Separator, pos);
  }

  /**
   Head precedence: when the text before the last separator has an
   extension it is the result, whatever the tail looks like.
   */
  lemma HeadWins(dest: string, hasExt: string -> bool, pos: int)
    requires IsLastOccurrence(dest, Separator, pos)
    requires hasExt(dest[..pos])
    ensures ApplySeparatorHeuristic(dest, hasExt) == dest[..pos]
  {
    SplitIsAtLastSeparator(dest, pos);
  }

  /**
   Tail wins: the head has no extension but the tail has; the result is
   `dest` after the separator, exactly three characters shorter than the
   tail, and it contains no separator.
   */
  lemma TailWins(dest: string, hasExt: string -> bool, pos: int)
    requires IsLastOccurrence(dest, Separator, pos)
    requires !hasExt(dest[..pos])
    requires hasExt(dest[pos..])
    ensures ApplySeparatorHeuristic(dest, hasExt) == dest[pos + 3..]
    ensures |ApplySeparatorHeuristic(dest, hasExt)| == |dest[pos..]| - 3
    ensures !Contains(ApplySeparatorHeuristic(dest, hasExt), Separator)
  {
    SplitIsAtLastSeparator(dest, pos);
    var r := dest[pos + 3..];
    if Contains(r, Separator) {
      var i :| OccursAt(r, Separator, i);
      OccursInSuffix(dest, Separator, pos + 3, i);
      assert false;
    }
  }

  /** Neither side has an extension: `dest` is returned unchanged. */
  lemma NeitherWins(dest: string, hasExt: string -> bool, pos: int)
    requires IsLastOccurrence(dest, Separator, pos)
    requires !hasExt(dest[..pos])
    requires !hasExt(dest[pos..])
    ensures ApplySeparatorHeuristic(dest, hasExt) == dest
  {
    SplitIsAtLastSeparator(dest, pos);
  }

  /** The heuristic's result is a derived name of `dest`. */
  lemma HeuristicIsDerivedName(dest: string, hasExt: string -> bool)
    ensures IsDerivedName(dest, hasExt, ApplySeparatorHeuristic(dest, hasExt))
  {
    var r := ApplySeparatorHeuristic(dest, hasExt);
    if Contains(dest, Separator) {
      var pos := LastIndexOf(dest, Separator);
      SplitIsAtLastSeparator(dest, pos);
      assert IsChoiceAt(dest, hasExt, pos, r);
    }
  }

  /** A derived name of `dest` is the one the heuristic returns. */
  lemma DerivedNameIsHeuristic(dest: string, hasExt: string -> bool, r: string)
    requires IsDerivedName(dest, hasExt, r)
    ensures r == ApplySeparatorHeuristic(dest, hasExt)
  {
    if Contains(dest, Separator) {
      var pos :| IsLastOccurrence(dest, Separator, pos) && IsChoiceAt(dest, hasExt, pos, r);
      SplitIsAtLastSeparator(dest, pos);
    }
  }

  /**
   With a title, `GetValue` answers the derived name of the resolved name,
   and the derived name is the only answer it could give.
   */
  lemma GetValueIsDerivedName(d: DocumentName, resolve: PathFilter -> string, hasExt: string -> bool, r: string)
    requires HasValue(Source(d))
    ensures IsDerivedName(resolve(d.filter), hasExt, GetValue(d, resolve, hasExt))
    ensures IsDerivedName(resolve(d.filter), hasExt, r) <==> r == GetValue(d, resolve, hasExt)
  {
    HeuristicIsDerivedName(resolve(d.filter), hasExt);
    if IsDerivedName(resolve(d.filter), hasExt, r) {
      DerivedNameIsHeuristic(resolve(d.filter), hasExt, r);
    }
  }
}
