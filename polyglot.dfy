/** polyglot2polylang.rb: splits every multilingual post of a WXR export into an
    English and an Italian copy, then splits the attachments of split posts, and
    records what the SQL side files need.

    The script keeps its bookkeeping in globals: the id counter `next_post_id`,
    `item_id_map` (old id to the English and Italian ids), `parent_id_map`
    (attachment id to parent id) and the two correction hashes. Here they form a
    `State`. Each pass visits a snapshot of the items and, for an item it splits,
    inserts the two copies before the item and unlinks it. The specification of a
    pass is the fold `Run`; the method `RunPass` does the same thing in place on
    the document and is proved equal to it. `Migrate` is the whole script. */
module Polyglot {
  import opened Text
  import opened Hashes
  import opened Markup
  import opened Wxr

  const GuidPostBase := "http://www.cottica.net/?p="
  const SlugSuffix := "-italiano"
  const TitleSuffix := " (Italiano)"

  datatype IdPair = IdPair(en: int, it: int)

  datatype State = State(
    nextPostId: int,
    itemIdMap: map<int, IdPair>,
    parentIdMap: Hash<int, int>,
    titleCorrections: Hash<int, string>,
    nameCorrections: Hash<int, string>)

  /** The state before the first pass: the counter seeded from the command line,
      every hash empty. */
  function Start(seed: int): State {
    State(seed, map[], [], [], [])
  }

  /** The split test reads `content:encoded` only: in the source the `or` operator
      binds more loosely than the assignment, so the excerpt and title tests are
      evaluated and thrown away. */
  predicate Multilingual(x: Item) {
    HasLangTag(x.content)
  }

  function LanguageCategory(l: Lang): Extra {
    if l == En then Category("language", "en", "English")
    else Category("language", "it", "Italiano")
  }

  /** The serialized PHP array Polylang reads from `_translations`. */
  function TranslationsValue(p: IdPair): string {
    "a:2:{s:2:\"en\";i:" + Show(p.en) + ";s:2:\"it\";i:" + Show(p.it) + ";}"
  }

  function LanguageExtras(l: Lang, p: IdPair): seq<Extra> {
    [LanguageCategory(l), PostMeta("_translations", TranslationsValue(p))]
  }

  // ---------------------------------------------------------------------------
  // The Italian link: `link.sub(%r{(/?)$}, '-italiano\1')`.

  /** A place where `(\/?)$` matches: a `/` that ends a line, or the end of a line. */
  predicate LinkSlot(s: string, i: int) {
    (0 <= i < |s| && s[i] == '/' && EolAt(s, i + 1)) || EolAt(s, i)
  }

  function FirstLinkSlot(s: string, from: nat): (r: nat)
    requires from <= |s|
    decreases |s| - from
    ensures from <= r <= |s| && LinkSlot(s, r)
    ensures forall j :: from <= j < r ==> !LinkSlot(s, j)
  {
    if LinkSlot(s, from) then from else FirstLinkSlot(s, from + 1)
  }

  /** `sub` rewrites the first match only. Replacing an optional `/` by `-italiano`
      and that same `/` amounts to inserting `-italiano` where the match starts. */
  function ItalianLink(link: string): string {
    var i := FirstLinkSlot(link, 0);
    link[..i] + SlugSuffix + link[i..]
  }

  /** On a one-line link, `-italiano` goes before a trailing slash, or at the end. */
  lemma ItalianLinkSingleLine(link: string)
    requires '\n' !in link
    ensures |link| > 0 && link[|link| - 1] == '/' ==>
              ItalianLink(link) == link[..|link| - 1] + SlugSuffix + "/"
    ensures (|link| == 0 || link[|link| - 1] != '/') ==> ItalianLink(link) == link + SlugSuffix
  {
    var i := FirstLinkSlot(link, 0);
    forall j | 0 <= j < |link| ensures link[j] != '\n' {
      assert link[j] in link;
    }
    if |link| > 0 && link[|link| - 1] == '/' {
      assert LinkSlot(link, |link| - 1);
      assert i == |link| - 1;
      assert link[i..] == "/";
    } else {
      forall j | 0 <= j < |link| ensures !LinkSlot(link, j) {
        if j + 1 < |link| {
          assert link[j + 1] in link;
        }
      }
      assert i == |link|;
      assert link[..i] == link;
    }
  }

  // ---------------------------------------------------------------------------
  // The copies.

  /** The Italian title: `to_italian(title)`, unless stripping leaves the title as
      it was, in which case ` (Italiano)` is appended to it. */
  function ItalianTitle(title: string): string {
    var t := StripAsWritten(title, It);
    if t == title then title + TitleSuffix else t
  }

  /** The Italian title never equals the title it was made from. */
  lemma ItalianTitleChanged(title: string)
    ensures ItalianTitle(title) != title
  {
    if StripAsWritten(title, It) == title {
      assert |ItalianTitle(title)| == |title| + |TitleSuffix|;
    }
  }

  /** Pass 1, English copy: new id and guid, English text, original link and slug. */
  function PostEn(x: Item, p: IdPair): Item {
    x.(id := p.en, guid := GuidPostBase + Show(p.en),
       content := StripAsWritten(x.content, En), excerpt := StripAsWritten(x.excerpt, En),
       title := StripAsWritten(x.title, En), extras := x.extras + LanguageExtras(En, p))
  }

  /** Pass 1, Italian copy: new id and guid, Italian text, suffixed link and slug. */
  function PostIt(x: Item, p: IdPair): Item {
    x.(id := p.it, guid := GuidPostBase + Show(p.it),
       link := ItalianLink(x.link), postName := x.postName + SlugSuffix,
       content := StripAsWritten(x.content, It), excerpt := StripAsWritten(x.excerpt, It),
       title := ItalianTitle(x.title), extras := x.extras + LanguageExtras(It, p))
  }

  /** Pass 2, English copy of an attachment: new id, the parent's English id. */
  function AttachmentEn(x: Item, p: IdPair, q: IdPair): Item {
    x.(id := p.en, parent := q.en, extras := x.extras + LanguageExtras(En, p))
  }

  /** Pass 2, Italian copy of an attachment: new id, the parent's Italian id,
      suffixed link, slug and title; guid and text are left as they are. */
  function AttachmentIt(x: Item, p: IdPair, q: IdPair): Item {
    x.(id := p.it, parent := q.it, link := ItalianLink(x.link),
       postName := x.postName + SlugSuffix, title := x.title + TitleSuffix,
       extras := x.extras + LanguageExtras(It, p))
  }

  // ---------------------------------------------------------------------------
  // The passes as a fold over the snapshot of items.

  datatype Pass = First | Second

  /** The next two ids of the counter, English first. */
  function Fresh(st: State): IdPair {
    IdPair(st.nextPostId, st.nextPostId + 1)
  }

  /** What one pass does with one item: the items that take its place and the new
      state. An item is either kept as it is or replaced by two copies that take the
      next two ids of the counter. */
  function Step(pass: Pass, st: State, x: Item): (seq<Item>, State) {
    match pass
    case First =>
      if !Multilingual(x) then ([x], st) else SplitPost(st, x)
    case Second =>
      if !IsAttachment(x) then ([x], st)
      else if x.parent !in st.itemIdMap then
        ([x], st.(parentIdMap := Put(st.parentIdMap, x.id, x.parent)))
      else SplitAttachment(st, x)
  }

  /** Pass 1 on a multilingual item. */
  function SplitPost(st: State, x: Item): (seq<Item>, State) {
    var p := Fresh(st);
    ([PostEn(x, p), PostIt(x, p)],
     State(st.nextPostId + 2, st.itemIdMap[x.id := p], st.parentIdMap,
           Put(st.titleCorrections, p.it, x.title), Put(st.nameCorrections, p.it, x.postName)))
  }

  /** Pass 2 on an attachment whose parent was split. The attachment's own entry in
      `item_id_map` is written before the parent's entry is read. */
  function SplitAttachment(st: State, x: Item): (seq<Item>, State)
    requires x.parent in st.itemIdMap
  {
    var p := Fresh(st);
    var m := st.itemIdMap[x.id := p];
    var q := m[x.parent];
    ([AttachmentEn(x, p, q), AttachmentIt(x, p, q)],
     State(st.nextPostId + 2, m, Put(Put(st.parentIdMap, p.en, q.en), p.it, q.it),
           st.titleCorrections, st.nameCorrections))
  }

  /** A whole pass: every item of the snapshot in turn, the state threaded through,
      each item's replacement put where the item was. */
  function Run(pass: Pass, items: seq<Item>, st: State): (r: (seq<Item>, State))
    decreases |items|
    ensures |r.0| >= |items|
    ensures r.1.nextPostId == st.nextPostId + 2 * (|r.0| - |items|)
    ensures pass == First ==> r.1.parentIdMap == st.parentIdMap
    ensures pass == Second ==>
      r.1.titleCorrections == st.titleCorrections && r.1.nameCorrections == st.nameCorrections
  {
    if items == [] then ([], st)
    else
      var prev := Run(pass, items[..|items| - 1], st);
      var last := Step(pass, prev.1, items[|items| - 1]);
      StepShape(pass, prev.1, items[|items| - 1]);
      (prev.0 + last.0, last.1)
  }

  /** An item is either kept as it is or replaced by two copies that take the next
      two ids of the counter. */
  lemma StepShape(pass: Pass, st: State, x: Item)
    ensures var r := Step(pass, st, x);
      (r.0 == [x] && r.1.nextPostId == st.nextPostId) ||
      (|r.0| == 2 && r.0[0].id == st.nextPostId && r.0[1].id == st.nextPostId + 1 &&
       r.1.nextPostId == st.nextPostId + 2)
  {
  }

  lemma RunSnoc(pass: Pass, items: seq<Item>, x: Item, st: State)
    ensures Run(pass, items + [x], st) ==
      (Run(pass, items, st).0 + Step(pass, Run(pass, items, st).1, x).0,
       Step(pass, Run(pass, items, st).1, x).1)
  {
    assert (items + [x])[..|items|] == items;
  }

  /** One iteration of a pass loop: putting the replacement of the current item
      where the item stands extends the document and the state by one step of
      `Run`. */
  lemma Advance(pass: Pass, items: seq<Item>, i: int, st: State, out: seq<Item>, pos: int,
                copies: seq<Item>, st': State)
    requires 0 <= i < |items| && 0 <= pos <= |out|
    requires out[..pos] == Run(pass, items[..i], st).0 && out[pos..] == items[i..]
    requires (copies, st') == Step(pass, Run(pass, items[..i], st).1, items[i])
    ensures pos < |out| && out[pos] == items[i]
    ensures (out[..pos] + copies + out[pos + 1..])[..pos + |copies|] == Run(pass, items[..i + 1], st).0
    ensures (out[..pos] + copies + out[pos + 1..])[pos + |copies|..] == items[i + 1..]
    ensures st' == Run(pass, items[..i + 1], st).1
  {
    assert out[pos..][0] == items[i];
    RunSnoc(pass, items[..i], items[i], st);
    assert items[..i + 1] == items[..i] + [items[i]];
    assert out[pos + 1..] == out[pos..][1..];
  }


  /** The first loop's body for one item: skip it, or allocate two ids, record
      them and the Italian copy's original title and slug, and build the copies. */
  method FirstPassItem(st: State, item: Item) returns (copies: seq<Item>, st': State)
    ensures (copies, st') == Step(First, st, item)
  {
    if !Multilingual(item) {
      return [item], st;
    }
    var nextPostId := st.nextPostId;
    var en := nextPostId;
    nextPostId := nextPostId + 1;
    var it := nextPostId;
    nextPostId := nextPostId + 1;
    var p := IdPair(en, it);
    var itemEn := PostEn(item, p);
    var itemIt := PostIt(item, p);
    st' := State(nextPostId, st.itemIdMap[item.id := p], st.parentIdMap,
                 Put(st.titleCorrections, it, item.title), Put(st.nameCorrections, it, item.postName));
    copies := [itemEn, itemIt];
  }

  /** The second loop's body for one item: skip a non-attachment; record the
      parent of an attachment whose parent was not split; otherwise allocate two
      ids and build copies attached to the parent's two language versions. */
  method SecondPassItem(st: State, item: Item) returns (copies: seq<Item>, st': State)
    ensures (copies, st') == Step(Second, st, item)
  {
    if !IsAttachment(item) {
      return [item], st;
    }
    if item.parent !in st.itemIdMap {
      return [item], st.(parentIdMap := Put(st.parentIdMap, item.id, item.parent));
    }
    var nextPostId := st.nextPostId;
    var en := nextPostId;
    nextPostId := nextPostId + 1;
    var it := nextPostId;
    nextPostId := nextPostId + 1;
    var p := IdPair(en, it);
    var itemIdMap := st.itemIdMap[item.id := p];
    var q := itemIdMap[item.parent];
    var itemEn := AttachmentEn(item, p, q);
    var parentIdMap := Put(st.parentIdMap, en, q.en);
    var itemIt := AttachmentIt(item, p, q);
    parentIdMap := Put(parentIdMap, it, q.it);
    st' := State(nextPostId, itemIdMap, parentIdMap, st.titleCorrections, st.nameCorrections);
    copies := [itemEn, itemIt];
  }

  /** The loop body of either pass. */
  method PassItem(pass: Pass, st: State, item: Item) returns (copies: seq<Item>, st': State)
    ensures (copies, st') == Step(pass, st, item)
  {
    if pass == First {
      copies, st' := FirstPassItem(st, item);
    } else {
      copies, st' := SecondPassItem(st, item);
    }
  }

  /** A pass in place: visit each item of a snapshot of the document and put the
      items that replace it where it stands (the copies go before it, then it is
      unlinked). */
  method RunPass(pass: Pass, doc: seq<Item>, st: State) returns (out: seq<Item>, st': State)
    ensures (out, st') == Run(pass, doc, st)
  {
    var items := doc;
    out, st' := doc, st;
    var i, pos := 0, 0;
    while i < |items|
      invariant 0 <= i <= |items| && 0 <= pos <= |out|
      invariant out[..pos] == Run(pass, items[..i], st).0 && out[pos..] == items[i..]
      invariant st' == Run(pass, items[..i], st).1
    {
      var copies, next := PassItem(pass, st', items[i]);
      Advance(pass, items, i, st, out, pos, copies, next);
      out := out[..pos] + copies + out[pos + 1..];
      pos := pos + |copies|;
      st' := next;
      i := i + 1;
    }
    assert items[..i] == doc && out[..pos] == out;
  }

  // ---------------------------------------------------------------------------
  // The SQL side files: one statement per hash entry, in insertion order.

  const AttachHead := "UPDATE wp_posts SET post_parent="
  const WhereId := " WHERE ID="
  const StatementEnd := ";\n"

  /** The `.attach.sql` statement that attaches media item `media` to `parent`. */
  function AttachStatement(media: int, parent: int): string {
    AttachHead + Show(parent) + WhereId + Show(media) + StatementEnd
  }

  /** The `.attach.sql` file, statement by statement: one per entry of
      `parent_id_map`, in the hash's order. */
  function AttachSql(pm: Hash<int, int>): seq<string> {
    seq(|pm|, j requires 0 <= j < |pm| => AttachStatement(pm[j].0, pm[j].1))
  }

  /** Reads an `.attach.sql` statement back into the media id and the parent id. */
  function ParseAttach(s: string): Option<(int, int)> {
    if !StartsAt(s, 0, AttachHead) then None
    else
      var body := s[|AttachHead|..];
      match FindFrom(body, WhereId, 0)
      case None => None
      case Some(i) =>
        var tail := body[i + |WhereId|..];
        if !EndsWith(tail, StatementEnd) then None
        else
          match (ReadInt(body[..i]), ReadInt(tail[..|tail| - |StatementEnd|]))
          case (Some(parent), Some(media)) => Some((media, parent))
          case _ => None
  }

  /** Every attach statement reads back as the ids it was written from, so no
      two entries produce the same statement. */
  lemma ParseAttachStatement(media: int, parent: int)
    ensures ParseAttach(AttachStatement(media, parent)) == Some((media, parent))
  {
    var s := AttachStatement(media, parent);
    var rest := Show(media) + StatementEnd;
    assert s == AttachHead + (Show(parent) + WhereId + rest);
    var body := s[|AttachHead|..];
    assert body == Show(parent) + WhereId + rest;
    FindAfterShow(parent, WhereId, rest);
    var tail := body[|Show(parent)| + |WhereId|..];
    assert tail == rest;
    assert tail[..|tail| - |StatementEnd|] == Show(media);
    ReadShow(parent);
    ReadShow(media);
  }

  const NameHead := "UPDATE wp_posts SET post_name='"

  /** The `.names.sql` statement that gives post `id` the slug `name`. The slug is
      written between quotes as it is, without doubling a quote inside it. */
  function NameStatement(id: int, name: string): string {
    NameHead + name + "'" + WhereId + Show(id) + StatementEnd
  }

  /** The `.names.sql` file, statement by statement: one per entry of
      `name_corrections`, in the hash's order. */
  function NamesSql(nc: Hash<int, string>): seq<string> {
    seq(|nc|, j requires 0 <= j < |nc| => NameStatement(nc[j].0, nc[j].1))
  }

  /** Reads a `.names.sql` statement back the way an SQL engine does: the quoted
      literal ends at the first lone quote. */
  function ParseName(s: string): Option<(int, string)> {
    if !StartsAt(s, 0, NameHead) then None
    else
      match ReadLiteral(s[|NameHead|..])
      case None => None
      case Some(vr) =>
        var tail := vr.1;
        if !StartsAt(tail, 0, WhereId) || !EndsWith(tail, StatementEnd) ||
           |tail| < |WhereId| + |StatementEnd| then None
        else
          match ReadInt(tail[|WhereId|..|tail| - |StatementEnd|])
          case Some(id) => Some((id, vr.0))
          case None => None
  }

  /** A slug without a quote reads back as itself with its post id. */
  lemma ParseNameStatement(id: int, name: string)
    requires '\'' !in name
    ensures ParseName(NameStatement(id, name)) == Some((id, name))
  {
    var rest := WhereId + Show(id) + StatementEnd;
    var s := NameStatement(id, name);
    EscapeQuoteFree(name);
    assert s == NameHead + (Escape(name) + "'" + rest);
    assert s[|NameHead|..] == Escape(name) + "'" + rest;
    ReadLiteralEscape(name, rest);
    assert rest[|WhereId|..|rest| - |StatementEnd|] == Show(id);
    ReadShow(id);
  }

  /** A slug with a quote in it ends the literal early: the statement does not
      read back as the slug it was written from. */
  lemma QuotedNameMisread()
    ensures ParseName(NameStatement(1, "l'arte")) != Some((1, "l'arte"))
  {
    var s := NameStatement(1, "l'arte");
    var t := s[|NameHead|..];
    var left := "arte'" + WhereId + Show(1) + StatementEnd;
    assert t == "l'" + left;
    assert t[1..] == "'" + left && t[1..][1..] == left;
    assert |t[1..]| >= 2 && t[1..][0] == '\'' && t[1..][1] != '\'';
    assert ReadLiteral(t[1..]) == Some(([], left));
    assert t[0] == 'l' && ['l'] + [] == "l";
    assert ReadLiteral(t) == Some(("l", left));
    assert !StartsAt(left, 0, WhereId) by { assert left[0] == 'a'; }
  }

  /** Writes `.attach.sql`: the statements of `parent_id_map.each`, in order. */
  method WriteAttachSql(pm: Hash<int, int>) returns (lines: seq<string>)
    ensures lines == AttachSql(pm)
  {
    lines := [];
    for j := 0 to |pm|
      invariant lines == AttachSql(pm[..j])
    {
      lines := lines + [AttachStatement(pm[j].0, pm[j].1)];
    }
    assert pm[..|pm|] == pm;
  }

  /** Writes `.names.sql`: the statements of `name_corrections.each`, in order. */
  method WriteNamesSql(nc: Hash<int, string>) returns (lines: seq<string>)
    ensures lines == NamesSql(nc)
  {
    lines := [];
    for j := 0 to |nc|
      invariant lines == NamesSql(nc[..j])
    {
      lines := lines + [NameStatement(nc[j].0, nc[j].1)];
    }
    assert nc[..|nc|] == nc;
  }

  // ---------------------------------------------------------------------------
  // The whole script.

  /** The migrated document and the two SQL side files. */
  datatype Output = Output(doc: seq<Item>, attachSql: seq<string>, namesSql: seq<string>)

  /** The script as a function of the items and the counter seed: pass 1 from the
      start state, pass 2 over its output from the state it left, then the files. */
  function Migration(items: seq<Item>, seed: int): Output {
    var one := Run(First, items, Start(seed));
    var two := Run(Second, one.0, one.1);
    Output(two.0, AttachSql(two.1.parentIdMap), NamesSql(two.1.nameCorrections))
  }

  /** The script: two passes over the document, then the two SQL files. */
  method Migrate(items: seq<Item>, seed: int) returns (out: Output)
    ensures out == Migration(items, seed)
  {
    var doc, st := RunPass(First, items, Start(seed));
    doc, st := RunPass(Second, doc, st);
    var attach := WriteAttachSql(st.parentIdMap);
    var names := WriteNamesSql(st.nameCorrections);
    out := Output(doc, attach, names);
  }
}
