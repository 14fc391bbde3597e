/** polylang-localize-tags.rb: for every post tag of a WXR export, an Italian copy
    with the next term id and the slug suffixed with `-it`, written as SQL that
    inserts the term and links it to the English original in Polylang's term meta. */
module LocalizeTags {
  import opened Text

  /** A `<wp:tag>` element, as the texts of its `wp:term_id`, `wp:tag_slug` and
      `wp:tag_name` descendants in document order (`at_xpath` takes the first). */
  datatype TagElem = TagElem(termIds: seq<string>, slugs: seq<string>, names: seq<string>)

  /** One entry of the `tags` array: the English term as found, the Italian term
      to create. The English id stays the text of `wp:term_id`. */
  datatype TagPair = TagPair(
    enId: string, enSlug: string, enName: string,
    itId: int, itSlug: string, itName: string)

  const ItSlugSuffix := "-it"

  /** Tags with a `wp:tag_slug` are processed, the others skipped. */
  predicate IsPostTag(t: TagElem) {
    t.slugs != []
  }

  /** A processed tag without a `wp:term_id` or `wp:tag_name` makes `at_xpath`
      return nil, and reading `content` of nil raises. */
  predicate Incomplete(t: TagElem) {
    t.termIds == [] || t.names == []
  }

  /** The tags the loop processes, in document order. */
  function PostTags(dom: seq<TagElem>): (r: seq<TagElem>)
    ensures |r| <= |dom|
    ensures forall k :: 0 <= k < |r| ==> IsPostTag(r[k])
  {
    if dom == [] then []
    else
      var tail := PostTags(dom[..|dom| - 1]);
      if IsPostTag(dom[|dom| - 1]) then tail + [dom[|dom| - 1]] else tail
  }

  /** The pair for a processed, complete tag given the Italian id. */
  function Localize(t: TagElem, itId: int): TagPair
    requires IsPostTag(t) && !Incomplete(t)
  {
    TagPair(t.termIds[0], t.slugs[0], t.names[0], itId, t.slugs[0] + ItSlugSuffix, t.names[0])
  }

  /** No processed tag raises. */
  predicate Complete(tags: seq<TagElem>) {
    forall k :: 0 <= k < |tags| ==> !Incomplete(tags[k])
  }

  /** One iteration of the loop over the tags gathered so far. */
  function GatherStep(tags: seq<TagPair>, t: TagElem, seed: int): Option<seq<TagPair>> {
    if !IsPostTag(t) then Some(tags)
    else if Incomplete(t) then None
    else Some(tags + [Localize(t, seed + |tags|)])
  }

  /** The gathering loop over the tags in document order: `None` when it raises. */
  function Gather(dom: seq<TagElem>, seed: int): Option<seq<TagPair>> {
    if dom == [] then Some([])
    else
      match Gather(dom[..|dom| - 1], seed)
      case None => None
      case Some(tags) => GatherStep(tags, dom[|dom| - 1], seed)
  }

  /** `tags_dom.each`: skip a tag without slug, stop at a tag that raises, and
      otherwise append its pair and advance `next_term_id`. */
  method GatherTags(dom: seq<TagElem>, seed: int) returns (r: Option<seq<TagPair>>)
    ensures r == Gather(dom, seed)
  {
    var tags: seq<TagPair> := [];
    var nextTermId := seed;
    for i := 0 to |dom|
      invariant Gather(dom[..i], seed) == Some(tags)
      invariant nextTermId == seed + |tags|
    {
      var t := dom[i];
      assert dom[..i + 1][..i] == dom[..i];
      if !IsPostTag(t) {
        continue;
      }
      if Incomplete(t) {
        GatherRaisesAfter(dom, i + 1, seed);
        return None;
      }
      tags := tags + [Localize(t, nextTermId)];
      nextTermId := nextTermId + 1;
    }
    assert dom[..|dom|] == dom;
    return Some(tags);
  }

  /** Once the loop has raised, the rest of the tags change nothing. */
  lemma {:induction false} GatherRaisesAfter(dom: seq<TagElem>, i: int, seed: int)
    requires 0 <= i <= |dom| && Gather(dom[..i], seed).None?
    ensures Gather(dom, seed).None?
    decreases |dom| - i
  {
    if i == |dom| {
      assert dom[..i] == dom;
    } else {
      assert dom[..i + 1][..i] == dom[..i];
      GatherRaisesAfter(dom, i + 1, seed);
    }
  }

  lemma PostTagsSnoc(dom: seq<TagElem>, t: TagElem)
    ensures PostTags(dom + [t]) == PostTags(dom) + (if IsPostTag(t) then [t] else [])
  {
    assert (dom + [t])[..|dom|] == dom;
  }

  /** The loop against a direct description: it raises exactly when some tag with
      a slug lacks a term id or a name, and otherwise the `k`-th tag with a slug
      gets Italian id `seed + k` (so tags without slug use up no id), the slug with
      `-it` appended, the same name, and keeps the English id as written. */
  lemma {:induction false} GatherReference(dom: seq<TagElem>, seed: int)
    ensures Gather(dom, seed).Some? <==> Complete(PostTags(dom))
    ensures Gather(dom, seed).Some? ==> |Gather(dom, seed).value| == |PostTags(dom)|
    ensures Gather(dom, seed).Some? ==>
      forall k :: 0 <= k < |PostTags(dom)| ==>
        var t, p := PostTags(dom)[k], Gather(dom, seed).value[k];
        p.itId == seed + k && p.enId == t.termIds[0] && p.enName == t.names[0] &&
        p.enSlug == t.slugs[0] && p.itSlug == t.slugs[0] + "-it" && p.itName == t.names[0]
  {
    if dom != [] {
      var init, t := dom[..|dom| - 1], dom[|dom| - 1];
      GatherReference(init, seed);
      assert dom == init + [t];
      PostTagsSnoc(init, t);
      var x := PostTags(init);
      if IsPostTag(t) {
        assert PostTags(dom) == x + [t];
        assert PostTags(dom)[|x|] == t;
        forall k | 0 <= k < |x| ensures PostTags(dom)[k] == x[k] {
        }
        if Complete(x) && Incomplete(t) {
          assert !Complete(PostTags(dom));
        }
      }
    }
  }

  // ---------------------------------------------------------------------------
  // The `.tagmeta.sql` file.

  const TermsHead := "INSERT INTO wp_terms (term_id, name, slug) VALUES ( "
  const TaxonomyHead := "INSERT INTO wp_term_taxonomy (term_id, taxonomy) VALUES ( "
  const MetaHead := "INSERT INTO wp_termmeta (term_id, meta_key, meta_value) VALUES ( "
  const Sep := ", '"

  const TranslationsHead := "a:2:{s:2:\"it\";i:"
  const TranslationsMid := ";s:2:\"en\";i:"
  const TranslationsEnd := ";}"
  const TranslationsKey := ", '_translations', '"
  const RowEnd := "' );\n"

  /** The `_translations` value, Italian id first. */
  function TagTranslations(p: TagPair): string {
    TranslationsHead + Show(p.itId) + TranslationsMid + p.enId + TranslationsEnd
  }

  /** The insert of the Italian term, name and slug with quotes doubled. */
  function TermsInsert(p: TagPair): string {
    TermsHead + Show(p.itId) + Sep + Escape(p.itName) + "'" + Sep + Escape(p.itSlug) + "'" + " );\n"
  }

  /** The five inserts for one tag, then an empty line. */
  function TagStatements(p: TagPair): (r: seq<string>)
    ensures |r| == 6
  {
    [TermsInsert(p),
     TaxonomyHead + Show(p.itId) + ", 'post_tag' );\n",
     MetaHead + Show(p.itId) + ", '_language', 1561 );\n",
     MetaHead + p.enId + TranslationsKey + TagTranslations(p) + RowEnd,
     MetaHead + Show(p.itId) + TranslationsKey + TagTranslations(p) + RowEnd,
     "\n"]
  }

  /** The file: the group of each tag, in the order of `tags`. */
  function TagMetaSql(tags: seq<TagPair>): seq<string> {
    if tags == [] then [] else TagMetaSql(tags[..|tags| - 1]) + TagStatements(tags[|tags| - 1])
  }

  /** Six writes per tag. */
  lemma {:induction false} TagMetaSqlLength(tags: seq<TagPair>)
    ensures |TagMetaSql(tags)| == 6 * |tags|
  {
    if tags != [] {
      TagMetaSqlLength(tags[..|tags| - 1]);
    }
  }

  /** Write `6k + m` is the `m`-th of tag `k`: the groups come in the order of the
      tags and do not interleave. */
  lemma {:induction false} TagMetaSqlAt(tags: seq<TagPair>, k: int, m: int)
    requires 0 <= k < |tags| && 0 <= m < 6
    ensures 6 * k + m < |TagMetaSql(tags)|
    ensures TagMetaSql(tags)[6 * k + m] == TagStatements(tags[k])[m]
  {
    var init := tags[..|tags| - 1];
    var a, b := TagMetaSql(init), TagStatements(tags[|tags| - 1]);
    assert TagMetaSql(tags) == a + b;
    TagMetaSqlLength(init);
    GroupAt(a, b, |init|, k, m);
    if k < |init| {
      TagMetaSqlAt(init, k, m);
      assert tags[k] == init[k];
    }
  }

  /** Index `6k + m` of `n` groups of six followed by one more group. */
  lemma GroupAt(a: seq<string>, b: seq<string>, n: int, k: int, m: int)
    requires |a| == 6 * n && |b| == 6 && 0 <= k <= n && 0 <= m < 6
    ensures 6 * k + m < |a + b|
    ensures k < n ==> (a + b)[6 * k + m] == a[6 * k + m]
    ensures k == n ==> (a + b)[6 * k + m] == b[m]
  {
  }

  /** Writes `.tagmeta.sql`. */
  method WriteTagMeta(tags: seq<TagPair>) returns (lines: seq<string>)
    ensures lines == TagMetaSql(tags)
  {
    lines := [];
    for k := 0 to |tags|
      invariant lines == TagMetaSql(tags[..k])
    {
      assert tags[..k + 1][..k] == tags[..k];
      lines := lines + TagStatements(tags[k]);
    }
    assert tags[..|tags|] == tags;
  }

  /** The script: nothing is written when gathering raises. */
  function LocalizeTags(dom: seq<TagElem>, seed: int): Option<seq<string>> {
    match Gather(dom, seed)
    case None => None
    case Some(tags) => Some(TagMetaSql(tags))
  }

  method Run(dom: seq<TagElem>, seed: int) returns (r: Option<seq<string>>)
    ensures r == LocalizeTags(dom, seed)
  {
    var tags := GatherTags(dom, seed);
    if tags.None? {
      return None;
    }
    var lines := WriteTagMeta(tags.value);
    return Some(lines);
  }

  // ---------------------------------------------------------------------------
  // Reading the terms insert back.

  /** Reads a `wp_terms` insert: the term id, the name and the slug. */
  function ParseTermsInsert(s: string): Option<(int, string, string)> {
    if !StartsAt(s, 0, TermsHead) then None
    else
      var body := s[|TermsHead|..];
      match FindFrom(body, Sep, 0)
      case None => None
      case Some(i) =>
        match ReadInt(body[..i])
        case None => None
        case Some(id) =>
          match ReadLiteral(body[i + |Sep|..])
          case None => None
          case Some(nameRest) =>
            if !StartsAt(nameRest.1, 0, Sep) then None
            else
              match ReadLiteral(nameRest.1[|Sep|..])
              case None => None
              case Some(slugRest) =>
                if slugRest.1 == " );\n" then Some((id, nameRest.0, slugRest.0)) else None
  }

  lemma Regroup(a: string, b: string, c: string, d: string, e: string, f: string, g: string, i: string, h: string)
    ensures a + b + c + d + e + f + g + i + h == a + (b + (c + ((d + e) + (f + ((g + i) + h)))))
  {
  }

  /** Quote doubling keeps names and slugs intact: the terms insert reads back as
      the Italian id, name and slug, whatever quotes they hold. */
  lemma ParseTermsInsertPair(p: TagPair)
    ensures ParseTermsInsert(TermsInsert(p)) == Some((p.itId, p.itName, p.itSlug))
  {
    var slugPart := (Escape(p.itSlug) + "'") + " );\n";
    var afterName := Sep + slugPart;
    var afterId := (Escape(p.itName) + "'") + afterName;
    var s := TermsInsert(p);
    Regroup(TermsHead, Show(p.itId), Sep, Escape(p.itName), "'", Sep, Escape(p.itSlug), "'", " );\n");
    assert s == TermsHead + (Show(p.itId) + (Sep + afterId));
    var body := s[|TermsHead|..];
    assert StartsAt(s, 0, TermsHead);
    assert body == Show(p.itId) + (Sep + afterId);
    assert body == Show(p.itId) + Sep + afterId;
    FindAfterShow(p.itId, Sep, afterId);
    ReadShow(p.itId);
    ReadLiteralEscape(p.itName, afterName);
    assert StartsAt(afterName, 0, Sep);
    assert afterName[|Sep|..] == slugPart;
    ReadLiteralEscape(p.itSlug, " );\n");
  }

  /** Reads a `_translations` value: the Italian id, then the English id text. */
  function ParseTranslations(v: string): Option<(int, string)> {
    if !StartsAt(v, 0, TranslationsHead) then None
    else
      var body := v[|TranslationsHead|..];
      match FindFrom(body, TranslationsMid, 0)
      case None => None
      case Some(i) =>
        var tail := body[i + |TranslationsMid|..];
        if !EndsWith(tail, TranslationsEnd) then None
        else
          match ReadInt(body[..i])
          case None => None
          case Some(it) => Some((it, tail[..|tail| - |TranslationsEnd|]))
  }

  /** Both `_translations` rows, the English term's and the Italian term's, carry
      one and the same value, and that value names the Italian id and then the
      English id of the tag. */
  lemma TranslationRows(p: TagPair)
    ensures exists v ::
      TagStatements(p)[3] == MetaHead + p.enId + TranslationsKey + v + RowEnd &&
      TagStatements(p)[4] == MetaHead + Show(p.itId) + TranslationsKey + v + RowEnd &&
      ParseTranslations(v) == Some((p.itId, p.enId))
  {
    var v := TagTranslations(p);
    ParseTagTranslations(p);
    assert TagStatements(p)[3] == MetaHead + p.enId + TranslationsKey + v + RowEnd;
    assert TagStatements(p)[4] == MetaHead + Show(p.itId) + TranslationsKey + v + RowEnd;
  }

  /** The `_translations` value reads back as the Italian id and the English id. */
  lemma ParseTagTranslations(p: TagPair)
    ensures ParseTranslations(TagTranslations(p)) == Some((p.itId, p.enId))
  {
    FramedParts(TranslationsHead, p.itId, TranslationsMid, p.enId, TranslationsEnd);
    ReadShow(p.itId);
  }

  /** End to end: the first statement of the `k`-th tag with a slug creates the
      Italian term with id `seed + k`, the tag's name and its slug with `-it`. */
  lemma LocalizeTagsTerms(dom: seq<TagElem>, seed: int, k: int)
    requires LocalizeTags(dom, seed).Some? && 0 <= k < |PostTags(dom)|
    ensures 6 * k < |LocalizeTags(dom, seed).value| && !Incomplete(PostTags(dom)[k])
    ensures var t := PostTags(dom)[k];
      ParseTermsInsert(LocalizeTags(dom, seed).value[6 * k]) ==
        Some((seed + k, t.names[0], t.slugs[0] + "-it"))
  {
    var tags := Gather(dom, seed).value;
    assert LocalizeTags(dom, seed).value == TagMetaSql(tags);
    GatherAt(dom, seed, k);
    TagMetaSqlTerms(tags, k);
  }

  /** `GatherReference` at one tag. */
  lemma GatherAt(dom: seq<TagElem>, seed: int, k: int)
    requires Gather(dom, seed).Some? && 0 <= k < |PostTags(dom)|
    ensures k < |Gather(dom, seed).value| && !Incomplete(PostTags(dom)[k])
    ensures var t, p := PostTags(dom)[k], Gather(dom, seed).value[k];
      p.itId == seed + k && p.itName == t.names[0] && p.itSlug == t.slugs[0] + "-it"
  {
    GatherReference(dom, seed);
  }

  /** The write that opens the group of tag `k` reads back as its Italian term. */
  lemma TagMetaSqlTerms(tags: seq<TagPair>, k: int)
    requires 0 <= k < |tags|
    ensures 6 * k < |TagMetaSql(tags)|
    ensures ParseTermsInsert(TagMetaSql(tags)[6 * k]) == Some((tags[k].itId, tags[k].itName, tags[k].itSlug))
  {
    TagMetaSqlAt(tags, k, 0);
    assert TagStatements(tags[k])[0] == TermsInsert(tags[k]);
    ParseTermsInsertPair(tags[k]);
  }
}
