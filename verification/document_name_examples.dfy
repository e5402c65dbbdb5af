/**
 The separator heuristic on representative titles, with
 `HasExtension` as the extension test and a resolver that returns the
 title unchanged.
 */
module DocumentNameExamples {
  import opened Strings
  import opened DocumentNames
  import DocumentNameProperties
  import Paths

  /** A resolver that returns the given text whatever the filter. */
  function Constant(name: string): PathFilter -> string {
    (f: PathFilter) => name
  }

  /**
   `head + " - " + rest`, where `rest` has no hyphen, is split at the
   separator written between the two.
   */
  lemma JoinedSplit(head: string, rest: string)
    requires forall k :: 0 <= k < |rest| ==> rest[k] != '-'
    ensures IsLastOccurrence(head + Separator + rest, Separator, |head|)
    ensures (head + Separator + rest)[..|head|] == head
    ensures (head + Separator + rest)[|head|..] == Separator + rest
    ensures (head + Separator + rest)[|head| + 3..] == rest
  {
    var dest := head + Separator + rest;
    assert dest[|head|..|head| + 3] == Separator;
    forall k | |head| + 1 < k < |dest| ensures dest[k] != Separator[1] {
      if k == |head| + 2 {
        assert dest[k] == ' ';
      } else {
        assert dest[k] == rest[k - |head| - 3];
      }
    }
    NoOccurrenceAfter(dest, Separator, |head|);
  }

  /** "Report.pdf - Acme Corp": the head has an extension and is chosen. */
  lemma HeadWinsExample()
    ensures Value(Create(Some("Report.pdf - Acme Corp"), "document.pdf"), Constant("Report.pdf - Acme Corp")) == "Report.pdf"
  {
    var head, rest := "Report.pdf", "Acme Corp";
    assert head + Separator + rest == "Report.pdf - Acme Corp";
    JoinedSplit(head, rest);
    assert Paths.IsExtensionDot(head, 6);
    DocumentNameProperties.HeadWins(head + Separator + rest, Paths.HasExtension, |head|);
  }

  /** "Acme Corp - Report.pdf": only the tail has an extension; it is chosen without the separator. */
  lemma TailWinsExample()
    ensures Value(Create(Some("Acme Corp - Report.pdf"), "document.pdf"), Constant("Acme Corp - Report.pdf")) == "Report.pdf"
  {
    var head, rest := "Acme Corp", "Report.pdf";
    assert head + Separator + rest == "Acme Corp - Report.pdf";
    JoinedSplit(head, rest);
    Paths.DotlessHasNoExtension(head);
    assert Paths.IsExtensionDot(Separator + rest, 9);
    DocumentNameProperties.TailWins(head + Separator + rest, Paths.HasExtension, |head|);
  }

  /** "Acme Corp - Quarterly Summary": neither side has an extension; the name is kept whole. */
  lemma NeitherWinsExample()
    ensures Value(Create(Some("Acme Corp - Quarterly Summary"), "document.pdf"), Constant("Acme Corp - Quarterly Summary"))
         == "Acme Corp - Quarterly Summary"
  {
    var head, rest := "Acme Corp", "Quarterly Summary";
    assert head + Separator + rest == "Acme Corp - Quarterly Summary";
    JoinedSplit(head, rest);
    Paths.DotlessHasNoExtension(head);
    Paths.DotlessHasNoExtension(Separator + rest);
    DocumentNameProperties.NeitherWins(head + Separator + rest, Paths.HasExtension, |head|);
  }

  /** Only the last separator splits: "Acme - Draft - Final.pdf" becomes "Final.pdf". */
  lemma LastSeparatorExample()
    ensures Value(Create(Some("Acme - Draft - Final.pdf"), "document.pdf"), Constant("Acme - Draft - Final.pdf")) == "Final.pdf"
  {
    var head, rest := "Acme - Draft", "Final.pdf";
    assert head + Separator + rest == "Acme - Draft - Final.pdf";
    JoinedSplit(head, rest);
    Paths.DotlessHasNoExtension(head);
    assert Paths.IsExtensionDot(Separator + rest, 8);
    DocumentNameProperties.TailWins(head + Separator + rest, Paths.HasExtension, |head|);
  }

  /** An empty or absent title yields the default name. */
  lemma EmptyTitleExample()
    ensures Value(Create(Some(""), "document.pdf"), Constant("ignored.pdf")) == "document.pdf"
    ensures Value(Create(None, "document.pdf"), Constant("ignored.pdf")) == "document.pdf"
  {
  }
}
