/** wxr-separate-attachments.rb: splits a WXR export into one document holding the
    attachment items and one holding every other item, each written next to the
    input under a name derived from it. */
module SeparateAttachments {
  import opened Text
  import opened Wxr

  /** A parsed WXR document, reduced to its items in document order. */
  class Document {
    var items: seq<Item>

    constructor(items: seq<Item>)
      ensures this.items == items
    {
      this.items := items;
    }

    /** `doc.dup`: a deep copy, sharing nothing with this document. */
    method Dup() returns (d: Document)
      ensures fresh(d) && d.items == items
    {
      d := new Document(items);
    }

    /** `item.unlink` for the item now at position `pos`: the items around it close up. */
    method Unlink(pos: int)
      requires 0 <= pos < |items|
      modifies this
      ensures items == old(items[..pos] + items[pos + 1..])
    {
      items := items[..pos] + items[pos + 1..];
    }
  }

  /** Removes from `doc` the items that are not attachments, visiting the items as
      the `xpath` query listed them before any was unlinked. */
  method DeleteNonAttachments(doc: Document)
    modifies doc
    ensures doc.items == Attachments(old(doc.items))
  {
    var listed := doc.items;
    for i := 0 to |listed|
      invariant doc.items == Attachments(listed[..i]) + listed[i..]
    {
      var pos := |Attachments(listed[..i])|;
      VisitStep(listed, i, doc.items, true);
      if !IsAttachment(listed[i]) {
        doc.Unlink(pos);
      }
    }
    assert listed[..|listed|] == listed;
  }

  /** Removes from `doc` the attachment items, in the same way. */
  method DeleteAttachments(doc: Document)
    modifies doc
    ensures doc.items == NonAttachments(old(doc.items))
  {
    var listed := doc.items;
    for i := 0 to |listed|
      invariant doc.items == NonAttachments(listed[..i]) + listed[i..]
    {
      var pos := |NonAttachments(listed[..i])|;
      VisitStep(listed, i, doc.items, false);
      if IsAttachment(listed[i]) {
        doc.Unlink(pos);
      }
    }
    assert listed[..|listed|] == listed;
  }

  /** The items a deletion loop keeps: the attachments, or all other items. */
  function Kept(items: seq<Item>, attachments: bool): seq<Item> {
    if attachments then Attachments(items) else NonAttachments(items)
  }

  /** One visit of a deletion loop: with the items visited so far filtered and the
      others still in place, the item at the visit's position is the one listed
      next; keeping it, or unlinking it, filters one item more. */
  lemma VisitStep(listed: seq<Item>, i: int, items: seq<Item>, attachments: bool)
    requires 0 <= i < |listed| && items == Kept(listed[..i], attachments) + listed[i..]
    ensures var pos := |Kept(listed[..i], attachments)|;
      var next := Kept(listed[..i + 1], attachments) + listed[i + 1..];
      pos < |items| &&
      (IsAttachment(listed[i]) == attachments ==> items == next) &&
      (IsAttachment(listed[i]) != attachments ==> items[..pos] + items[pos + 1..] == next)
  {
    var x, rest := listed[i], listed[i + 1..];
    var pre := listed[..i];
    var kept := Kept(pre, attachments);
    var keep := IsAttachment(x) == attachments;
    var kept' := Kept(listed[..i + 1], attachments);
    assert kept' == if keep then kept + [x] else kept by {
      assert listed[..i + 1] == pre + [x];
      KeptSnoc(pre, x, attachments);
    }
    assert items == kept + ([x] + rest) by {
      assert listed[i..] == [x] + rest;
    }
    SpliceOut(items, kept, x, rest, kept' + rest, keep);
  }

  lemma KeptSnoc(xs: seq<Item>, x: Item, attachments: bool)
    ensures Kept(xs + [x], attachments) ==
      Kept(xs, attachments) + if IsAttachment(x) == attachments then [x] else []
  {
    FiltersSnoc(xs, x);
  }

  /** The item between `kept` and `rest` is at position `|kept|`; keeping it
      leaves `kept + [x]` before `rest`, unlinking it closes them up. */
  lemma SpliceOut(items: seq<Item>, kept: seq<Item>, x: Item, rest: seq<Item>, next: seq<Item>, keep: bool)
    requires items == kept + ([x] + rest)
    requires next == (if keep then kept + [x] else kept) + rest
    ensures |kept| < |items|
    ensures keep ==> items == next
    ensures !keep ==> items[..|kept|] + items[|kept| + 1..] == next
  {
    assert items[..|kept|] == kept;
    assert items[|kept| + 1..] == rest;
  }

  /** The script on a loaded document: the document itself becomes the attachments
      document, a copy of it the posts-and-pages document. */
  method Separate(input: Document) returns (attachmentsDoc: Document, postsDoc: Document)
    modifies input
    ensures attachmentsDoc == input && fresh(postsDoc)
    ensures attachmentsDoc.items == Attachments(old(input.items))
    ensures postsDoc.items == NonAttachments(old(input.items))
  {
    attachmentsDoc := input;
    postsDoc := input.Dup();
    DeleteNonAttachments(attachmentsDoc);
    DeleteAttachments(postsDoc);
  }

  /** The two documents split the items: every item lands in exactly one of them,
      as often as it occurred, and each keeps the document order of its items. */
  lemma {:induction false} SplitPartition(items: seq<Item>)
    ensures multiset(Attachments(items)) + multiset(NonAttachments(items)) == multiset(items)
    ensures forall x :: x in Attachments(items) <==> x in items && IsAttachment(x)
    ensures forall x :: x in NonAttachments(items) <==> x in items && !IsAttachment(x)
  {
    if items != [] {
      var x, tail := items[0], items[1..];
      SplitPartition(tail);
      assert items == [x] + tail;
    }
  }

  // ---------------------------------------------------------------------------
  // Output file names: `sub(/\.xml$/, replacement)`.

  const Ext := ".xml"
  const AttachmentsExt := ".attachments.xml"
  const PostsExt := ".posts.xml"

  /** The first position at or after `from` where `.xml` ends a line. */
  function ExtAt(name: string, from: nat): (r: Option<nat>)
    decreases |name| - from
    ensures r.Some? ==>
      from <= r.value && StartsAt(name, r.value, Ext) && EolAt(name, r.value + |Ext|) &&
      forall j :: from <= j < r.value ==> !(StartsAt(name, j, Ext) && EolAt(name, j + |Ext|))
    ensures r.None? ==>
      forall j :: from <= j ==> !(StartsAt(name, j, Ext) && EolAt(name, j + |Ext|))
  {
    if from + |Ext| > |name| then None
    else if StartsAt(name, from, Ext) && EolAt(name, from + |Ext|) then Some(from)
    else ExtAt(name, from + 1)
  }

  /** Replaces the first `.xml` at the end of a line; a name without one is kept. */
  function OutputName(name: string, replacement: string): string {
    match ExtAt(name, 0)
    case None => name
    case Some(i) => name[..i] + replacement + name[i + |Ext|..]
  }

  /** On a one-line name, `.xml` matches only as the last four characters. */
  lemma ExtAtSingleLine(name: string)
    requires '\n' !in name
    ensures EndsWith(name, Ext) ==> ExtAt(name, 0) == Some(|name| - |Ext|)
    ensures !EndsWith(name, Ext) ==> ExtAt(name, 0) == None
  {
    var r := ExtAt(name, 0);
    if r.Some? {
      assert r.value == |name| - |Ext|;
    } else if EndsWith(name, Ext) {
      assert StartsAt(name, |name| - |Ext|, Ext);
    }
  }

  /** For a one-line input name: a name ending in `.xml` gets that extension
      replaced, any other name is used as it is. */
  lemma OutputNameSingleLine(name: string, replacement: string)
    requires '\n' !in name
    ensures EndsWith(name, Ext) ==>
      OutputName(name, replacement) == name[..|name| - |Ext|] + replacement
    ensures !EndsWith(name, Ext) ==> OutputName(name, replacement) == name
  {
    ExtAtSingleLine(name);
  }

  /** An input `*.xml` gives two output files distinct from each other and from the
      input; any other input name is used for both outputs, so the posts document
      is written over the attachments document and over the input. */
  lemma OutputNamesDistinct(name: string)
    requires '\n' !in name
    ensures var a, p := OutputName(name, AttachmentsExt), OutputName(name, PostsExt);
      EndsWith(name, Ext) <==> (a != p && a != name && p != name)
  {
    OutputNameSingleLine(name, AttachmentsExt);
    OutputNameSingleLine(name, PostsExt);
    if EndsWith(name, Ext) {
      var stem := name[..|name| - |Ext|];
      var a, p := stem + AttachmentsExt, stem + PostsExt;
      assert |a| != |p| && |a| != |name| && |p| != |name|;
    }
  }

  /** The files the script leaves behind, by name: the attachments document is
      written first and the posts document second, so on a shared name the posts
      document is what remains. */
  function WrittenFiles(name: string, items: seq<Item>): map<string, seq<Item>> {
    map[OutputName(name, AttachmentsExt) := Attachments(items)][OutputName(name, PostsExt) := NonAttachments(items)]
  }

  /** For an input `*.xml` both documents survive under their own names, and
      together they hold every item of the input exactly once. */
  lemma WrittenFilesKept(name: string, items: seq<Item>)
    requires '\n' !in name && EndsWith(name, Ext)
    ensures var files := WrittenFiles(name, items);
      var stem := name[..|name| - |Ext|];
      files.Keys == {stem + AttachmentsExt, stem + PostsExt} &&
      files[stem + AttachmentsExt] == Attachments(items) &&
      files[stem + PostsExt] == NonAttachments(items) &&
      multiset(files[stem + AttachmentsExt]) + multiset(files[stem + PostsExt]) == multiset(items)
  {
    OutputNamesDistinct(name);
    OutputNameSingleLine(name, AttachmentsExt);
    OutputNameSingleLine(name, PostsExt);
    SplitPartition(items);
  }

  /** Any other one-line input name is overwritten by the posts document, and the
      attachments are lost. */
  lemma WrittenFilesClash(name: string, items: seq<Item>)
    requires '\n' !in name && !EndsWith(name, Ext)
    ensures WrittenFiles(name, items) == map[name := NonAttachments(items)]
  {
    OutputNameSingleLine(name, AttachmentsExt);
    OutputNameSingleLine(name, PostsExt);
  }
}
