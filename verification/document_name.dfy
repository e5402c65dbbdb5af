/**
 The converter's `DocumentName`: it turns a document title into a name
 usable as a file name, or falls back to a default name.

 The two collaborators are parameters of the model:
 - `resolve` stands for sanitising the title with the strict `PathFilter`
   and taking `IO.Get(...).Name` of the filter's result; it receives the
   filter the document name was built with;
 - `hasExt` stands for `System.IO.Path.HasExtension`; `Value` fixes it to
   the approximation in module `Paths`.
 */
module DocumentNames {
  import opened Strings
  import Paths

  /** A possibly absent value (null for a title). */
  datatype Option<T> = None | Some(value: T)

  /**
   The path filter the document name owns: the text it was given and its
   five policy flags. How it sanitises is not part of this model.
   */
  datatype PathFilter = PathFilter(
    source: Option<string>,
    allowCurrentDirectory: bool,
    allowDriveLetter: bool,
    allowInactivation: bool,
    allowParentDirectory: bool,
    allowUnc: bool)

  /** Every permissive flag of the filter is off. */
  predicate IsStrict(f: PathFilter) {
    && !f.allowCurrentDirectory
    && !f.allowDriveLetter
    && !f.allowInactivation
    && !f.allowParentDirectory
    && !f.allowUnc
  }

  /** An immutable document name: its filter and its fallback name. */
  datatype DocumentName = DocumentName(filter: PathFilter, defaultValue: string)

  /** The separator between a title and its auxiliary text. */
  const Separator: string := " - "

  /**
   The constructor: it keeps the fallback name and wraps the title in a
   path filter with every permissive flag turned off. It never fails.
   */
  function Create(src: Option<string>, alternate: string): (d: DocumentName)
    ensures Source(d) == src
    ensures d.defaultValue == alternate
    ensures IsStrict(d.filter)
  {
    DocumentName(PathFilter(src, false, false, false, false, false), alternate)
  }

  /** The original title, as the filter holds it. */
  function Source(d: DocumentName): (src: Option<string>)
    ensures src == d.filter.source
  {
    d.filter.source
  }

  /** The title is present and non-empty. */
  predicate HasValue(s: Option<string>) {
    s.Some? && |s.value| > 0
  }

  /** `dest` cut just before the separator: `head` before it, `tail` from it on. */
  datatype Split = Split(head: string, tail: string)

  /**
   Splits `dest` at the last occurrence of the separator, or answers
   `None` when the separator does not occur.
   */
  function SplitAtSeparator(dest: string): (r: Option<Split>)
    ensures r.None? <==> !Contains(dest, Separator)
    ensures r.Some? ==> r.value.head + r.value.tail == dest
    ensures r.Some? ==> IsPrefix(Separator, r.value.tail)
    ensures r.Some? ==> IsLastOccurrence(dest, Separator, |r.value.head|)
  {
    var pos := LastIndexOf(dest, Separator);
    if pos == -1 then None
    else
      assert dest[..pos] + dest[pos..] == dest;
      Some(Split(dest[..pos], dest[pos..]))
  }

  /**
   The separator heuristic: keep the side of the last separator that
   looks like a file name, the head first, or keep `dest` whole.
   */
  function ApplySeparatorHeuristic(dest: string, hasExt: string -> bool): (r: string)
    ensures IsPrefix(r, dest) || IsSuffix(r, dest)
  {
    match SplitAtSeparator(dest)
    case None => dest
    case Some(Split(head, tail)) =>
      if hasExt(head) then head
      else if hasExt(tail) then
        assert IsPrefix(Separator, tail);
        tail[|Separator|..]
      else dest
  }

  /**
   `GetValue`: the default name when the title has no value, otherwise
   the separator heuristic applied to the resolved name of the filter.
   */
  function GetValue(d: DocumentName, resolve: PathFilter -> string, hasExt: string -> bool): (r: string)
    ensures !HasValue(Source(d)) ==> r == d.defaultValue
    ensures HasValue(Source(d)) ==> IsPrefix(r, resolve(d.filter)) || IsSuffix(r, resolve(d.filter))
  {
    if !HasValue(Source(d)) then d.defaultValue
    else ApplySeparatorHeuristic(resolve(d.filter), hasExt)
  }

  /**
   The `Value` property, with `HasExtension` as the extension test. The
   value of a titled document is either the whole resolved name or a name
   that itself has an extension: removing the separator never loses the
   tail's extension.
   */
  function Value(d: DocumentName, resolve: PathFilter -> string): (r: string)
    ensures !HasValue(Source(d)) ==> r == d.defaultValue
    ensures HasValue(Source(d)) ==> r == resolve(d.filter) || Paths.HasExtension(r)
  {
    var r := GetValue(d, resolve, Paths.HasExtension);
    assert HasValue(Source(d)) ==> r == resolve(d.filter) || Paths.HasExtension(r) by {
      var dest := resolve(d.filter);
      if HasValue(Source(d)) && SplitAtSeparator(dest).Some? {
        var split := SplitAtSeparator(dest).value;
        if !Paths.HasExtension(split.head) && Paths.HasExtension(split.tail) {
          var rest := split.tail[|Separator|..];
          assert split.tail == Separator + rest;
          assert forall i :: 0 <= i < |Separator| ==> Separator[i] != '.';
          Paths.HasExtensionIgnoresDotlessPrefix(Separator, rest);
        }
      }
    }
    r
  }

  /**
   What the heuristic returns, stated without the search: `r` is a
   derived name of `dest` when either the separator is absent and `r` is
   `dest`, or `pos` is its last occurrence and `r` is the side the
   extension test picks.
   */
  ghost predicate IsDerivedName(dest: string, hasExt: string -> bool, r: string) {
    if !Contains(dest, Separator) then r == dest
    else exists pos :: IsLastOccurrence(dest, Separator, pos) && IsChoiceAt(dest, hasExt, pos, r)
  }

  /** `r` is what the tie-break order picks when the split is at `pos`. */
  ghost predicate IsChoiceAt(dest: string, hasExt: string -> bool, pos: int, r: string)
    requires 0 <= pos && pos + |Separator| <= |dest|
  {
    && (hasExt(dest[..pos]) ==> r == dest[..pos])
    && (!hasExt(dest[..pos]) && hasExt(dest[pos..]) ==> r == dest[pos + |Separator|..])
    && (!hasExt(dest[..pos]) && !hasExt(dest[pos..]) ==> r == dest)
  }
}
