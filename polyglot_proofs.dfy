/** Properties of the two passes of polyglot2polylang.rb: where the copies go,
    which ids they get, and what the bookkeeping hashes hold afterwards. */
module PolyglotProofs {
  import opened Text
  import opened Hashes
  import opened Markup
  import opened Wxr
  import opened Polyglot

  /** A pass over two lists is the pass over the first, then the pass over the
      second from the state the first left: each item's replacement stays at the
      item's position and the other items keep their order. */
  lemma {:induction false} RunAppend(pass: Pass, xs: seq<Item>, ys: seq<Item>, st: State)
    ensures Run(pass, xs + ys, st) ==
      (Run(pass, xs, st).0 + Run(pass, ys, Run(pass, xs, st).1).0,
       Run(pass, ys, Run(pass, xs, st).1).1)
    decreases |ys|
  {
    if ys == [] {
      assert xs + ys == xs;
      var r := Run(pass, xs, st);
      assert r.0 + [] == r.0;
    } else {
      var init, y := ys[..|ys| - 1], ys[|ys| - 1];
      assert ys == init + [y];
      RunAppend(pass, xs, init, st);
      RunAppendSnoc(pass, xs, init, y, st);
    }
  }

  /** The step of `RunAppend`: one more item at the end of the second list. */
  lemma RunAppendSnoc(pass: Pass, xs: seq<Item>, init: seq<Item>, y: Item, st: State)
    requires Run(pass, xs + init, st).0 == Run(pass, xs, st).0 + Run(pass, init, Run(pass, xs, st).1).0
    requires Run(pass, xs + init, st).1 == Run(pass, init, Run(pass, xs, st).1).1
    ensures Run(pass, xs + (init + [y]), st).0 == Run(pass, xs, st).0 + Run(pass, init + [y], Run(pass, xs, st).1).0
    ensures Run(pass, xs + (init + [y]), st).1 == Run(pass, init + [y], Run(pass, xs, st).1).1
  {
    var zs := xs + init;
    assert xs + (init + [y]) == zs + [y];
    var a := Run(pass, xs, st);
    var b := Run(pass, init, a.1);
    var c := Step(pass, b.1, y);
    assert Run(pass, zs + [y], st) == ((a.0 + b.0) + c.0, c.1) by {
      RunSnoc(pass, zs, y, st);
    }
    assert Run(pass, init + [y], a.1) == (b.0 + c.0, c.1) by {
      RunSnoc(pass, init, y, a.1);
    }
    AppendAssoc(a.0, b.0, c.0);
  }

  predicate IdsBelow(items: seq<Item>, bound: int) {
    forall x :: x in items ==> x.id < bound
  }

  /** One step of `RunIds`, on plain lists: appending either the next input item
      or two items with the next two counter values keeps the ids distinct. */
  lemma IdsExtend(init: seq<Item>, x: Item, prev: seq<Item>, copies: seq<Item>, lo: int, mid: int, hi: int)
    requires DistinctIds(init + [x]) && IdsBelow(init + [x], lo) && lo <= mid
    requires DistinctIds(prev)
    requires forall y :: y in prev ==> y.id in IdSet(init) || lo <= y.id < mid
    requires (copies == [x] && hi == mid) ||
             (|copies| == 2 && copies[0].id == mid && copies[1].id == mid + 1 && hi == mid + 2)
    ensures DistinctIds(prev + copies)
    ensures forall y :: y in prev + copies ==> y.id in IdSet(init + [x]) || lo <= y.id < hi
  {
    var items := init + [x];
    assert IdSet(init) <= IdSet(items);
    assert forall y :: y in prev ==> y.id != x.id && y.id < mid by {
      forall y | y in prev ensures y.id != x.id && y.id < mid {
        if y.id in IdSet(init) {
          var j :| 0 <= j < |init| && init[j].id == y.id;
          assert items[j] == init[j] && items[|init|] == x;
        }
      }
    }
    var out := prev + copies;
    assert forall c :: c in copies ==> c.id == x.id || mid <= c.id < hi;
    assert DistinctIds(out) by {
      forall a, b | 0 <= a < b < |out| ensures out[a].id != out[b].id {
        if b < |prev| {
          assert out[a] == prev[a] && out[b] == prev[b];
        } else if a < |prev| {
          assert out[a] == prev[a] && out[b] == copies[b - |prev|];
          assert copies[b - |prev|] in copies;
        } else {
          assert out[a] == copies[a - |prev|] && out[b] == copies[b - |prev|];
        }
      }
    }
    assert x in items;
    forall y | y in out ensures y.id in IdSet(items) || lo <= y.id < hi {
      if y !in prev {
        assert y in copies;
      }
    }
  }

  /** Fresh ids: if the input ids are distinct and below the counter, the output ids
      are distinct, and each is either an input id or an id the pass allocated,
      at or above the counter's start and below its end. */
  lemma {:induction false} RunIds(pass: Pass, items: seq<Item>, st: State)
    requires DistinctIds(items) && IdsBelow(items, st.nextPostId)
    ensures DistinctIds(Run(pass, items, st).0)
    ensures forall y :: y in Run(pass, items, st).0 ==>
      y.id in IdSet(items) || st.nextPostId <= y.id < Run(pass, items, st).1.nextPostId
    decreases |items|
  {
    if items != [] {
      var init, x := items[..|items| - 1], items[|items| - 1];
      assert items == init + [x];
      RunIds(pass, init, st);
      var prev := Run(pass, init, st);
      var step := Step(pass, prev.1, x);
      IdsExtend(init, x, prev.0, step.0, st.nextPostId, prev.1.nextPostId, step.1.nextPostId);
    }
  }

  /** The number of items the first pass splits. */
  function SplitCount(items: seq<Item>): nat {
    if items == [] then 0
    else SplitCount(items[..|items| - 1]) + (if Multilingual(items[|items| - 1]) then 1 else 0)
  }

  /** The items the first pass splits, in document order. */
  function Splits(items: seq<Item>): (r: seq<Item>)
    ensures |r| == SplitCount(items)
    ensures forall y :: y in r ==> y in items && Multilingual(y)
  {
    if items == [] then []
    else
      var init, x := items[..|items| - 1], items[|items| - 1];
      assert items == init + [x];
      Splits(init) + (if Multilingual(x) then [x] else [])
  }

  /** A multilingual item is the split item numbered by the splits before it. */
  lemma {:induction false} SplitsAt(items: seq<Item>, i: int)
    requires 0 <= i < |items| && Multilingual(items[i])
    ensures SplitCount(items[..i]) < |Splits(items)| && Splits(items)[SplitCount(items[..i])] == items[i]
    decreases |items|
  {
    var init := items[..|items| - 1];
    if i < |items| - 1 {
      assert init[..i] == items[..i] && init[i] == items[i];
      SplitsAt(init, i);
    } else {
      assert items[..i] == init;
    }
  }

  /** The first pass adds one item and uses two ids per multilingual item. */
  lemma {:induction false} FirstPassCount(items: seq<Item>, st: State)
    ensures |Run(First, items, st).0| == |items| + SplitCount(items)
    ensures Run(First, items, st).1.nextPostId == st.nextPostId + 2 * SplitCount(items)
    decreases |items|
  {
    if items != [] {
      FirstPassCount(items[..|items| - 1], st);
    }
  }

  /** Ids handed out so far come in increasing order. */
  predicate AllocatedIncreasing(out: seq<Item>, lo: int) {
    forall a, b :: 0 <= a < b < |out| && lo <= out[a].id && lo <= out[b].id ==> out[a].id < out[b].id
  }

  /** One step of `RunAllocationOrder`, on plain lists. */
  lemma AllocationExtend(prev: seq<Item>, x: Item, copies: seq<Item>, lo: int, mid: int, hi: int)
    requires IdsBelow(prev, mid) && AllocatedIncreasing(prev, lo) && x.id < lo <= mid
    requires (copies == [x] && hi == mid) ||
             (|copies| == 2 && copies[0].id == mid && copies[1].id == mid + 1 && hi == mid + 2)
    ensures IdsBelow(prev + copies, hi) && AllocatedIncreasing(prev + copies, lo)
  {
    var out := prev + copies;
    forall a, b | 0 <= a < b < |out| && lo <= out[a].id && lo <= out[b].id
      ensures out[a].id < out[b].id
    {
      if b < |prev| {
        assert out[a] == prev[a] && out[b] == prev[b];
      } else if a < |prev| {
        assert out[a] == prev[a] && out[a] in prev;
      }
    }
    forall y | y in out ensures y.id < hi {
      if y !in prev {
        assert y in copies;
      }
    }
  }

  /** Ids are handed out in processing order: in the output of a pass, the items
      that got a new id (one at or above the counter's start) come in strictly
      increasing id order, and every output id is below the counter's end. */
  lemma {:induction false} RunAllocationOrder(pass: Pass, items: seq<Item>, st: State)
    requires IdsBelow(items, st.nextPostId)
    ensures IdsBelow(Run(pass, items, st).0, Run(pass, items, st).1.nextPostId)
    ensures AllocatedIncreasing(Run(pass, items, st).0, st.nextPostId)
    decreases |items|
  {
    if items != [] {
      var init, x := items[..|items| - 1], items[|items| - 1];
      assert items == init + [x];
      assert x in items;
      RunAllocationOrder(pass, init, st);
      var prev := Run(pass, init, st);
      var step := Step(pass, prev.1, x);
      AllocationExtend(prev.0, x, step.0, st.nextPostId, prev.1.nextPostId, step.1.nextPostId);
    }
  }

  /** The output of a pass around item `i`: what came before it, its replacement,
      what comes after it. */
  lemma RunAround(pass: Pass, items: seq<Item>, st: State, i: int)
    requires 0 <= i < |items|
    ensures var pre := Run(pass, items[..i], st);
            var step := Step(pass, pre.1, items[i]);
            var post := Run(pass, items[i + 1..], step.1);
            Run(pass, items, st) == (pre.0 + step.0 + post.0, post.1) &&
            Run(pass, items[..i + 1], st) == (pre.0 + step.0, step.1)
  {
    var x, suffix := items[i], items[i + 1..];
    var pre := Run(pass, items[..i], st);
    var step := Step(pass, pre.1, x);
    var post := Run(pass, suffix, step.1);
    assert items == items[..i + 1] + suffix;
    assert items[..i + 1] == items[..i] + [x];
    RunSnoc(pass, items[..i], x, st);
    RunAppend(pass, items[..i + 1], suffix, st);
  }

  /** Pass 1 around item `i`. An item whose content has no language tag stays where
      it is, unchanged. A multilingual item is replaced, at its position, by its
      English copy then its Italian copy, which take the ids `seed + 2c` and
      `seed + 2c + 1`, `c` being the number of items split before it. Both get the
      guid of their new id and, at the end of their children, their language
      category and the same `_translations` entry. The English copy keeps link and
      slug and has the English text; the Italian copy has the suffixed link and
      slug, the Italian text and the Italian title. */
  lemma FirstPassAt(items: seq<Item>, st: State, i: int)
    requires 0 <= i < |items|
    ensures var pre := Run(First, items[..i], st);
            var out := Run(First, items, st).0;
            var x, k, p := items[i], |pre.0|, Fresh(pre.1);
      p == IdPair(st.nextPostId + 2 * SplitCount(items[..i]), st.nextPostId + 2 * SplitCount(items[..i]) + 1) &&
      (!Multilingual(x) ==> k < |out| && out[k] == x) &&
      (Multilingual(x) ==>
        k + 1 < |out| &&
        out[k].id == p.en && out[k].guid == GuidPostBase + Show(p.en) &&
        out[k].link == x.link && out[k].postName == x.postName &&
        out[k].title == StripAsWritten(x.title, En) && out[k].content == StripAsWritten(x.content, En) &&
        out[k].excerpt == StripAsWritten(x.excerpt, En) &&
        out[k].postType == x.postType && out[k].parent == x.parent &&
        out[k].extras == x.extras + [LanguageCategory(En), PostMeta("_translations", TranslationsValue(p))] &&
        out[k + 1].id == p.it && out[k + 1].guid == GuidPostBase + Show(p.it) &&
        out[k + 1].link == ItalianLink(x.link) && out[k + 1].postName == x.postName + SlugSuffix &&
        out[k + 1].title == ItalianTitle(x.title) && out[k + 1].content == StripAsWritten(x.content, It) &&
        out[k + 1].excerpt == StripAsWritten(x.excerpt, It) &&
        out[k + 1].postType == x.postType && out[k + 1].parent == x.parent &&
        out[k + 1].extras == x.extras + [LanguageCategory(It), PostMeta("_translations", TranslationsValue(p))])
  {
    RunAround(First, items, st, i);
    FirstPassCount(items[..i], st);
  }

  /** The ids of the items the first pass splits. */
  function SplitIds(items: seq<Item>): set<int> {
    set y | y in items && Multilingual(y) :: y.id
  }

  /** What one step of pass 1 does to `item_id_map`. */
  lemma FirstStepMap(st: State, x: Item)
    ensures var m := Step(First, st, x).1.itemIdMap;
      m == if Multilingual(x) then st.itemIdMap[x.id := Fresh(st)] else st.itemIdMap
  {
  }

  /** Pass 1 gives an `item_id_map` entry to the id of every multilingual item and
      to no other id, and leaves the entries of ids not in the input alone. */
  lemma {:induction false} FirstPassMap(items: seq<Item>, st: State)
    ensures forall k :: k in Run(First, items, st).1.itemIdMap <==> k in st.itemIdMap || k in SplitIds(items)
    ensures forall k :: k in st.itemIdMap && k !in IdSet(items) ==>
      Run(First, items, st).1.itemIdMap[k] == st.itemIdMap[k]
    decreases |items|
  {
    if items != [] {
      var init, x := items[..|items| - 1], items[|items| - 1];
      assert items == init + [x];
      FirstPassMap(init, st);
      var prev := Run(First, init, st);
      RunSnoc(First, init, x, st);
      FirstStepMap(prev.1, x);
      assert SplitIds(items) == SplitIds(init) + (if Multilingual(x) then {x.id} else {});
      assert IdSet(items) == IdSet(init) + {x.id};
    }
  }

  /** What one step of pass 1 does to the correction hashes. */
  lemma FirstStepCorrections(st: State, x: Item)
    ensures var s := Step(First, st, x).1;
      s.nameCorrections == (if Multilingual(x) then Put(st.nameCorrections, st.nextPostId + 1, x.postName)
                            else st.nameCorrections) &&
      s.titleCorrections == (if Multilingual(x) then Put(st.titleCorrections, st.nextPostId + 1, x.title)
                             else st.titleCorrections)
  {
    if Multilingual(x) {
      var s := SplitPost(st, x).1;
      assert Step(First, st, x).1 == s;
      assert Fresh(st).it == st.nextPostId + 1;
      assert s.nameCorrections == Put(st.nameCorrections, st.nextPostId + 1, x.postName);
    }
  }

  /** Pass 1 only writes corrections for ids it allocates. */
  lemma {:induction false} FirstPassCorrectionsFrame(items: seq<Item>, st: State)
    ensures forall k :: k < st.nextPostId ==>
      Lookup(Run(First, items, st).1.nameCorrections, k) == Lookup(st.nameCorrections, k) &&
      Lookup(Run(First, items, st).1.titleCorrections, k) == Lookup(st.titleCorrections, k)
    decreases |items|
  {
    if items != [] {
      var init, x := items[..|items| - 1], items[|items| - 1];
      assert items == init + [x];
      FirstPassCorrectionsFrame(init, st);
      var prev := Run(First, init, st);
      RunSnoc(First, init, x, st);
      FirstStepCorrections(prev.1, x);
    }
  }

  /** What pass 1 records for a multilingual item, ids being distinct:
      `item_id_map` maps its id to the ids of its two copies, and both correction
      hashes map the Italian copy's id to the item's ORIGINAL title and slug,
      recorded before the slug gets its `-italiano` suffix. */
  lemma FirstPassRecords(items: seq<Item>, st: State, i: int)
    requires DistinctIds(items) && 0 <= i < |items| && Multilingual(items[i])
    ensures var p := Fresh(Run(First, items[..i], st).1);
            var r := Run(First, items, st).1;
      items[i].id in r.itemIdMap && r.itemIdMap[items[i].id] == p &&
      Lookup(r.nameCorrections, p.it) == Some(items[i].postName) &&
      Lookup(r.titleCorrections, p.it) == Some(items[i].title)
  {
    var x, suffix := items[i], items[i + 1..];
    var pre := Run(First, items[..i], st);
    var p := Fresh(pre.1);
    var s2 := Step(First, pre.1, x).1;
    var post := Run(First, suffix, s2).1;
    assert Run(First, items, st).1 == post by {
      RunAround(First, items, st, i);
    }
    assert x.id in s2.itemIdMap && s2.itemIdMap[x.id] == p by {
      FirstStepMap(pre.1, x);
    }
    assert p.it < s2.nextPostId &&
      Lookup(s2.nameCorrections, p.it) == Some(x.postName) &&
      Lookup(s2.titleCorrections, p.it) == Some(x.title) by {
      FirstStepCorrections(pre.1, x);
      StepShape(First, pre.1, x);
    }
    assert x.id in post.itemIdMap && post.itemIdMap[x.id] == p by {
      NotInSuffix(items, i);
      FirstPassMap(suffix, s2);
    }
    assert Lookup(post.nameCorrections, p.it) == Some(x.postName) &&
      Lookup(post.titleCorrections, p.it) == Some(x.title) by {
      FirstPassCorrectionsFrame(suffix, s2);
    }
  }

  lemma NotInSuffix(items: seq<Item>, i: int)
    requires DistinctIds(items) && 0 <= i < |items|
    ensures items[i].id !in IdSet(items[i + 1..])
  {
    forall y | y in items[i + 1..] ensures y.id != items[i].id {
      var j :| 0 <= j < |items[i + 1..]| && items[i + 1..][j] == y;
      assert items[i + 1 + j] == y;
    }
  }

  /** What one step of pass 2 does, case by case. */
  lemma SecondStep(st: State, x: Item)
    ensures var r := Step(Second, st, x);
      (!IsAttachment(x) ==> r == ([x], st)) &&
      (IsAttachment(x) && x.parent !in st.itemIdMap ==>
        r == ([x], st.(parentIdMap := Put(st.parentIdMap, x.id, x.parent)))) &&
      (IsAttachment(x) && x.parent in st.itemIdMap ==>
        var p := Fresh(st);
        var q := st.itemIdMap[x.id := p][x.parent];
        r.0 == [AttachmentEn(x, p, q), AttachmentIt(x, p, q)] &&
        r.1.parentIdMap == Put(Put(st.parentIdMap, p.en, q.en), p.it, q.it))
  {
  }

  /** Pass 2 around item `i`. A non-attachment, and an attachment whose parent was
      not split, stay where they are, unchanged. Any other attachment is replaced,
      at its position, by two copies with the next two ids, attached to the English
      and the Italian id of the parent. Neither copy gets a new guid or stripped
      text; only the Italian one gets the suffixed title, slug and link. */
  lemma SecondPassAt(items: seq<Item>, st: State, i: int)
    requires 0 <= i < |items|
    ensures var pre := Run(Second, items[..i], st);
            var out := Run(Second, items, st).0;
            var x, k, p, m := items[i], |pre.0|, Fresh(pre.1), pre.1.itemIdMap;
      (!(IsAttachment(x) && x.parent in m) ==> k < |out| && out[k] == x) &&
      (IsAttachment(x) && x.parent in m ==>
        var q := m[x.id := p][x.parent];
        k + 1 < |out| &&
        out[k].id == p.en && out[k].parent == q.en &&
        out[k].guid == x.guid && out[k].title == x.title && out[k].content == x.content &&
        out[k].excerpt == x.excerpt && out[k].link == x.link && out[k].postName == x.postName &&
        out[k].postType == x.postType &&
        out[k].extras == x.extras + [LanguageCategory(En), PostMeta("_translations", TranslationsValue(p))] &&
        out[k + 1].id == p.it && out[k + 1].parent == q.it &&
        out[k + 1].guid == x.guid && out[k + 1].title == x.title + TitleSuffix &&
        out[k + 1].content == x.content && out[k + 1].excerpt == x.excerpt &&
        out[k + 1].link == ItalianLink(x.link) && out[k + 1].postName == x.postName + SlugSuffix &&
        out[k + 1].postType == x.postType &&
        out[k + 1].extras == x.extras + [LanguageCategory(It), PostMeta("_translations", TranslationsValue(p))])
  {
    RunAround(Second, items, st, i);
    SecondStep(Run(Second, items[..i], st).1, items[i]);
  }

  /** Pass 2 keeps every non-attachment, in order. */
  lemma {:induction false} SecondPassKeepsPosts(items: seq<Item>, st: State)
    ensures NonAttachments(Run(Second, items, st).0) == NonAttachments(items)
    decreases |items|
  {
    if items != [] {
      var init, x := items[..|items| - 1], items[|items| - 1];
      assert items == init + [x];
      SecondPassKeepsPosts(init, st);
      var prev := Run(Second, init, st);
      RunSnoc(Second, init, x, st);
      SecondStep(prev.1, x);
      var step := Step(Second, prev.1, x);
      AttachmentsAppend(prev.0, step.0);
      AttachmentsAppend(init, [x]);
      assert NonAttachments(step.0) == NonAttachments([x]) by {
        if step.0 != [x] {
          assert step.0[1..][1..] == [];
          assert NonAttachments(step.0[1..][1..]) == [];
        }
        assert [x][1..] == [];
      }
    }
  }

  /** Recording one more attachment in the parent hash, under a key not yet in it,
      keeps the hash equal to "the earlier keys, then the attachments' ids, each
      mapped to its parent". */
  lemma ParentsExtend(pm: Hash<int, int>, base: seq<int>, out: seq<Item>, y: Item)
    requires Keys(pm) == base + Ids(Attachments(out))
    requires forall z :: z in Attachments(out) ==> Lookup(pm, z.id) == Some(z.parent)
    requires IsAttachment(y) && y.id !in Keys(pm)
    ensures Keys(Put(pm, y.id, y.parent)) == base + Ids(Attachments(out + [y]))
    ensures forall z :: z in Attachments(out + [y]) ==>
      Lookup(Put(pm, y.id, y.parent), z.id) == Some(z.parent)
  {
    AttachmentsAppend(out, [y]);
    assert Attachments([y]) == [y] by { assert [y][1..] == []; }
    assert Ids(Attachments(out) + [y]) == Ids(Attachments(out)) + [y.id];
  }

  /** One step of `SecondPassParents`. */
  lemma SecondStepParents(base: seq<int>, out: seq<Item>, s: State, x: Item)
    requires Keys(s.parentIdMap) == base + Ids(Attachments(out))
    requires forall z :: z in Attachments(out) ==> Lookup(s.parentIdMap, z.id) == Some(z.parent)
    requires forall k :: k in Keys(s.parentIdMap) ==> k < s.nextPostId && k != x.id
    ensures var r := Step(Second, s, x);
      Keys(r.1.parentIdMap) == base + Ids(Attachments(out + r.0)) &&
      forall z :: z in Attachments(out + r.0) ==> Lookup(r.1.parentIdMap, z.id) == Some(z.parent)
  {
    SecondStep(s, x);
    var pm := s.parentIdMap;
    if !IsAttachment(x) {
      FiltersSnoc(out, x);
      assert Attachments(out) + [] == Attachments(out);
    } else if x.parent !in s.itemIdMap {
      ParentsExtend(pm, base, out, x);
    } else {
      var p := Fresh(s);
      var q := s.itemIdMap[x.id := p][x.parent];
      ParentsExtendTwo(pm, base, out, AttachmentEn(x, p, q), AttachmentIt(x, p, q));
    }
  }

  /** `ParentsExtend` for the two copies of a split attachment. */
  lemma ParentsExtendTwo(pm: Hash<int, int>, base: seq<int>, out: seq<Item>, en: Item, it: Item)
    requires Keys(pm) == base + Ids(Attachments(out))
    requires forall z :: z in Attachments(out) ==> Lookup(pm, z.id) == Some(z.parent)
    requires IsAttachment(en) && IsAttachment(it)
    requires en.id !in Keys(pm) && it.id !in Keys(pm) && en.id != it.id
    ensures var pm' := Put(Put(pm, en.id, en.parent), it.id, it.parent);
      Keys(pm') == base + Ids(Attachments(out + [en, it])) &&
      forall z :: z in Attachments(out + [en, it]) ==> Lookup(pm', z.id) == Some(z.parent)
  {
    ParentsExtend(pm, base, out, en);
    ParentsExtend(Put(pm, en.id, en.parent), base, out + [en], it);
    assert out + [en, it] == (out + [en]) + [it];
  }

  /** One step of `SecondPassParents`, on plain lists: the keys of the parent hash
      are below the counter and differ from the id of the next input item. */
  lemma KeysAvoidNext(init: seq<Item>, x: Item, base: seq<int>, out: seq<Item>, keys: seq<int>, lo: int, hi: int)
    requires DistinctIds(init + [x]) && IdsBelow(init + [x], lo) && lo <= hi
    requires forall k :: k in base ==> k < lo && k !in IdSet(init + [x])
    requires forall y :: y in out ==> y.id in IdSet(init) || lo <= y.id < hi
    requires keys == base + Ids(Attachments(out))
    ensures forall k :: k in keys ==> k < hi && k != x.id
  {
    var items := init + [x];
    assert x in items;
    AttachmentsIn(out);
    forall k | k in keys ensures k < hi && k != x.id {
      if k !in base {
        var atts := Attachments(out);
        var j :| 0 <= j < |atts| && Ids(atts)[j] == k;
        var z := atts[j];
        assert z in out;
        if z.id in IdSet(init) {
          var a :| 0 <= a < |init| && init[a].id == z.id;
          assert items[a] == init[a] && items[|init|] == x;
        }
      }
    }
  }

  /** After pass 2 the parent hash holds the keys it started with, then the id of
      every attachment of the output in document order, and maps each of those to
      the attachment's parent: both copies of a split attachment, with the English
      and the Italian parent id, and each unsplit attachment with its own parent.
      This needs the input ids distinct and below the counter, and the keys already
      present to be neither input ids nor at or above the counter. */
  lemma {:induction false} SecondPassParents(items: seq<Item>, st: State)
    requires DistinctIds(items) && IdsBelow(items, st.nextPostId)
    requires forall k :: k in Keys(st.parentIdMap) ==> k < st.nextPostId && k !in IdSet(items)
    ensures var r := Run(Second, items, st);
      Keys(r.1.parentIdMap) == Keys(st.parentIdMap) + Ids(Attachments(r.0)) &&
      forall y :: y in Attachments(r.0) ==> Lookup(r.1.parentIdMap, y.id) == Some(y.parent)
    decreases |items|
  {
    if items == [] {
      assert Keys(st.parentIdMap) + Ids([]) == Keys(st.parentIdMap);
    } else {
      var init, x := items[..|items| - 1], items[|items| - 1];
      assert items == init + [x];
      assert IdSet(init) <= IdSet(items);
      SecondPassParents(init, st);
      RunIds(Second, init, st);
      var prev := Run(Second, init, st);
      RunSnoc(Second, init, x, st);
      var s := prev.1;
      KeysAvoidNext(init, x, Keys(st.parentIdMap), prev.0, Keys(s.parentIdMap), st.nextPostId, s.nextPostId);
      SecondStepParents(Keys(st.parentIdMap), prev.0, s, x);
    }
  }

  // ---------------------------------------------------------------------------
  // The whole script.

  /** Pass 1 of the script leaves ids that pass 2 can work from: distinct, below
      the counter, and an empty parent hash. */
  lemma FirstPassReady(items: seq<Item>, seed: int)
    requires DistinctIds(items) && IdsBelow(items, seed)
    ensures var one := Run(First, items, Start(seed));
      DistinctIds(one.0) && IdsBelow(one.0, one.1.nextPostId) && seed <= one.1.nextPostId &&
      one.1.parentIdMap == [] &&
      forall y :: y in one.0 ==> y.id in IdSet(items) || seed <= y.id
  {
    RunIds(First, items, Start(seed));
    var one := Run(First, items, Start(seed));
    forall y | y in one.0 ensures y.id < one.1.nextPostId {
      if y.id in IdSet(items) {
        var z :| z in items && z.id == y.id;
      }
    }
  }

  /** No two items of the migrated document share an id, and every id is either an
      id of the input or one the script allocated from the seed upwards, provided
      the input ids are distinct and below the seed. */
  lemma MigrationIds(items: seq<Item>, seed: int)
    requires DistinctIds(items) && IdsBelow(items, seed)
    ensures DistinctIds(Migration(items, seed).doc)
    ensures forall y :: y in Migration(items, seed).doc ==> y.id in IdSet(items) || seed <= y.id
  {
    FirstPassReady(items, seed);
    var one := Run(First, items, Start(seed));
    RunIds(Second, one.0, one.1);
    forall y | y in Migration(items, seed).doc ensures y.id in IdSet(items) || seed <= y.id {
      if y.id in IdSet(one.0) {
        var z :| z in one.0 && z.id == y.id;
      }
    }
  }

  /** `.attach.sql` has one statement per attachment of the migrated document, in
      document order, each attaching that attachment to the parent it carries in
      the document, and each statement reads back as those two ids. */
  lemma MigrationAttachSql(items: seq<Item>, seed: int)
    requires DistinctIds(items) && IdsBelow(items, seed)
    ensures var out := Migration(items, seed);
      var atts := Attachments(out.doc);
      |out.attachSql| == |atts| &&
      forall j :: 0 <= j < |atts| ==>
        out.attachSql[j] == AttachStatement(atts[j].id, atts[j].parent) &&
        ParseAttach(out.attachSql[j]) == Some((atts[j].id, atts[j].parent))
  {
    var one := Run(First, items, Start(seed));
    var two := Run(Second, one.0, one.1);
    var pm, atts := two.1.parentIdMap, Attachments(two.0);
    assert Keys(pm) == Ids(atts) && forall y :: y in atts ==> Lookup(pm, y.id) == Some(y.parent) by {
      FirstPassReady(items, seed);
      SecondPassParents(one.0, one.1);
      assert Keys(one.1.parentIdMap) == [];
    }
    assert DistinctIds(atts) by {
      MigrationIds(items, seed);
      AttachmentsDistinct(two.0);
    }
    ParentRows(pm, atts);
  }

  /** A hash whose keys are the ids of distinct items, in order, and which maps
      each item's id to its parent, holds exactly the pairs of the items. */
  lemma ParentRows(pm: Hash<int, int>, atts: seq<Item>)
    requires Keys(pm) == Ids(atts) && DistinctIds(atts)
    requires forall y :: y in atts ==> Lookup(pm, y.id) == Some(y.parent)
    ensures |AttachSql(pm)| == |atts|
    ensures forall j :: 0 <= j < |atts| ==>
      AttachSql(pm)[j] == AttachStatement(atts[j].id, atts[j].parent) &&
      ParseAttach(AttachSql(pm)[j]) == Some((atts[j].id, atts[j].parent))
  {
    assert DistinctKeys(pm) by {
      forall a, b | 0 <= a < b < |pm| ensures pm[a].0 != pm[b].0 {
        assert Keys(pm)[a] == pm[a].0 && Keys(pm)[b] == pm[b].0;
      }
    }
    forall j | 0 <= j < |atts|
      ensures pm[j] == (atts[j].id, atts[j].parent)
      ensures ParseAttach(AttachStatement(atts[j].id, atts[j].parent)) == Some((atts[j].id, atts[j].parent))
    {
      assert Keys(pm)[j] == pm[j].0;
      assert atts[j] in atts;
      LookupEntry(pm, j);
      ParseAttachStatement(atts[j].id, atts[j].parent);
    }
  }

  /** Every item pass 1 leaves is an input item it did not split, or a copy with
      an id at or above the counter. */
  lemma {:induction false} FirstPassOrigins(items: seq<Item>, st: State)
    ensures forall y :: y in Run(First, items, st).0 ==>
      (y in items && !Multilingual(y)) || st.nextPostId <= y.id
    decreases |items|
  {
    if items != [] {
      var init, x := items[..|items| - 1], items[|items| - 1];
      assert items == init + [x];
      FirstPassOrigins(init, st);
      RunSnoc(First, init, x, st);
    }
  }

  /** What one step of pass 2 does to `item_id_map`. */
  lemma SecondStepMap(st: State, x: Item)
    ensures Step(Second, st, x).1.itemIdMap ==
      if IsAttachment(x) && x.parent in st.itemIdMap then st.itemIdMap[x.id := Fresh(st)]
      else st.itemIdMap
  {
  }

  /** Pass 2 writes `item_id_map` only under ids of the items it visits. */
  lemma {:induction false} SecondPassMapFrame(items: seq<Item>, st: State)
    ensures forall k :: k !in IdSet(items) ==>
      (k in Run(Second, items, st).1.itemIdMap <==> k in st.itemIdMap) &&
      (k in st.itemIdMap ==> Run(Second, items, st).1.itemIdMap[k] == st.itemIdMap[k])
    decreases |items|
  {
    if items != [] {
      var init, x := items[..|items| - 1], items[|items| - 1];
      assert items == init + [x];
      assert IdSet(items) == IdSet(init) + {x.id};
      SecondPassMapFrame(init, st);
      RunSnoc(Second, init, x, st);
      SecondStepMap(Run(Second, init, st).1, x);
    }
  }

  /** Attachments follow their post: in the script, an attachment whose parent is
      a post that pass 1 split is itself split by pass 2, and its English and
      Italian copies are attached to the English and the Italian copy of that
      post. Needs the input ids distinct and below the seed. */
  lemma AttachmentFollowsPost(items: seq<Item>, seed: int, i: int, j: int)
    requires DistinctIds(items) && IdsBelow(items, seed)
    requires 0 <= i < |items| && Multilingual(items[i])
    requires var one := Run(First, items, Start(seed));
      0 <= j < |one.0| && IsAttachment(one.0[j]) && one.0[j].parent == items[i].id
    ensures var one := Run(First, items, Start(seed));
      var post := Fresh(Run(First, items[..i], Start(seed)).1);
      var pre := Run(Second, one.0[..j], one.1);
      var out := Run(Second, one.0, one.1).0;
      var k := |pre.0|;
      k + 1 < |out| &&
      out[k].id == Fresh(pre.1).en && out[k].parent == post.en &&
      out[k + 1].id == Fresh(pre.1).it && out[k + 1].parent == post.it
  {
    var one := Run(First, items, Start(seed));
    var x, pid := one.0[j], items[i].id;
    FirstPassRecords(items, Start(seed), i);
    FirstPassOrigins(items, Start(seed));
    assert pid !in IdSet(one.0) by {
      forall y | y in one.0 ensures y.id != pid {
        if y in items && !Multilingual(y) {
          var a :| 0 <= a < |items| && items[a] == y;
          assert a != i;
        }
      }
    }
    SecondPassSplitsAt(one.0, one.1, j, pid, one.1.itemIdMap[pid]);
  }

  /** Pass 2 on an attachment whose parent id has an `item_id_map` entry and is the
      id of no item it visits: the attachment's copies get the next two ids and the
      two ids of that entry as parents. */
  lemma SecondPassSplitsAt(items: seq<Item>, st: State, j: int, pid: int, post: IdPair)
    requires 0 <= j < |items| && IsAttachment(items[j]) && items[j].parent == pid
    requires pid !in IdSet(items) && pid in st.itemIdMap && st.itemIdMap[pid] == post
    ensures var pre := Run(Second, items[..j], st);
      var out := Run(Second, items, st).0;
      var k := |pre.0|;
      k + 1 < |out| &&
      out[k].id == Fresh(pre.1).en && out[k].parent == post.en &&
      out[k + 1].id == Fresh(pre.1).it && out[k + 1].parent == post.it
  {
    var x := items[j];
    assert items[..j] + items[j..] == items;
    assert IdSet(items[..j]) <= IdSet(items);
    assert x in items;
    SecondPassMapFrame(items[..j], st);
    RunAround(Second, items, st, j);
    SecondStep(Run(Second, items[..j], st).1, x);
  }

  /** `.names.sql` restores, for every post pass 1 split, the original slug of its
      Italian copy: the statement setting the Italian copy's id back to the slug
      the post had before its `-italiano` suffix is in the file. */
  lemma MigrationNamesSql(items: seq<Item>, seed: int, i: int)
    requires DistinctIds(items) && 0 <= i < |items| && Multilingual(items[i])
    ensures var p := Fresh(Run(First, items[..i], Start(seed)).1);
      NameStatement(p.it, items[i].postName) in Migration(items, seed).namesSql
  {
    FirstPassRecords(items, Start(seed), i);
    var one := Run(First, items, Start(seed));
    var nc := one.1.nameCorrections;
    var p := Fresh(Run(First, items[..i], Start(seed)).1);
    assert Run(Second, one.0, one.1).1.nameCorrections == nc;
    LookupIn(nc, p.it, items[i].postName);
    var j :| 0 <= j < |nc| && nc[j] == (p.it, items[i].postName);
    assert NamesSql(nc)[j] == NameStatement(p.it, items[i].postName);
  }

  /** The `name_corrections` entries for the split items `sp` of a pass 1 whose
      counter starts at `next`: the k-th gets the Italian id `next + 2k + 1` and
      its own slug. */
  function NameRows(sp: seq<Item>, next: int): Hash<int, string> {
    seq(|sp|, k requires 0 <= k < |sp| => (next + 2 * k + 1, sp[k].postName))
  }

  /** Pass 1 appends to `name_corrections` exactly one entry per item it splits,
      in document order, when the hash holds no id at or above the counter. */
  lemma {:induction false} FirstPassNames(items: seq<Item>, st: State)
    requires forall j :: 0 <= j < |st.nameCorrections| ==> st.nameCorrections[j].0 < st.nextPostId
    ensures Run(First, items, st).1.nameCorrections ==
      st.nameCorrections + NameRows(Splits(items), st.nextPostId)
    decreases |items|
  {
    var nc0, n0 := st.nameCorrections, st.nextPostId;
    if items == [] {
      assert NameRows([], n0) == [];
      assert nc0 + [] == nc0;
    } else {
      var init, x := items[..|items| - 1], items[|items| - 1];
      var prev, sp := Run(First, init, st).1, Splits(init);
      var h := prev.nameCorrections;
      assert h == nc0 + NameRows(sp, n0) by {
        FirstPassNames(init, st);
      }
      assert prev.nextPostId == n0 + 2 * |sp| by {
        FirstPassCount(init, st);
      }
      var tail := if Multilingual(x) then [x] else [];
      var h' := if Multilingual(x) then Put(h, n0 + 2 * |sp| + 1, x.postName) else h;
      assert Run(First, items, st).1.nameCorrections == h' by {
        assert Run(First, items, st).1 == Step(First, prev, x).1;
        FirstStepCorrections(prev, x);
      }
      assert Splits(items) == sp + tail;
      assert h' == nc0 + NameRows(sp + tail, n0) by {
        NamesSnoc(nc0, sp, n0, h, x);
      }
    }
  }

  /** One more step of pass 1 on the hash `FirstPassNames` describes. */
  lemma NamesSnoc(nc0: Hash<int, string>, sp: seq<Item>, n0: int, h: Hash<int, string>, x: Item)
    requires forall j :: 0 <= j < |nc0| ==> nc0[j].0 < n0
    requires h == nc0 + NameRows(sp, n0)
    ensures (if Multilingual(x) then Put(h, n0 + 2 * |sp| + 1, x.postName) else h) ==
      nc0 + NameRows(sp + (if Multilingual(x) then [x] else []), n0)
  {
    if Multilingual(x) {
      NewNameKey(nc0, sp, n0, h);
      PutNew(h, n0 + 2 * |sp| + 1, x.postName);
      assert NameRows(sp + [x], n0) == NameRows(sp, n0) + [(n0 + 2 * |sp| + 1, x.postName)];
      AppendAssoc(nc0, NameRows(sp, n0), [(n0 + 2 * |sp| + 1, x.postName)]);
    } else {
      assert sp + [] == sp;
    }
  }

  /** The next Italian id is not yet a key of `name_corrections`. */
  lemma NewNameKey(nc0: Hash<int, string>, sp: seq<Item>, n0: int, h: Hash<int, string>)
    requires forall j :: 0 <= j < |nc0| ==> nc0[j].0 < n0
    requires h == nc0 + NameRows(sp, n0)
    ensures n0 + 2 * |sp| + 1 !in Keys(h)
  {
    forall j | 0 <= j < |h| ensures Keys(h)[j] < n0 + 2 * |sp| + 1 {
      assert Keys(h)[j] == h[j].0;
      if j >= |nc0| {
        assert h[j] == NameRows(sp, n0)[j - |nc0|];
      }
    }
  }

  /** `.names.sql` holds exactly one statement per post pass 1 split, in document
      order: the k-th gives the k-th split post's Italian copy, id seed + 2k + 1
      (`FirstPassAt`, `SplitsAt`), back the slug the post had. */
  lemma MigrationNames(items: seq<Item>, seed: int)
    ensures var sp, sql := Splits(items), Migration(items, seed).namesSql;
      |sql| == |sp| &&
      forall k :: 0 <= k < |sp| ==> sql[k] == NameStatement(seed + 2 * k + 1, sp[k].postName)
  {
    var one := Run(First, items, Start(seed));
    var sp := Splits(items);
    var nc := Run(Second, one.0, one.1).1.nameCorrections;
    assert nc == NameRows(sp, seed) by {
      FirstPassNames(items, Start(seed));
      assert [] + NameRows(sp, seed) == NameRows(sp, seed);
    }
    var sql := Migration(items, seed).namesSql;
    assert sql == NamesSql(nc);
    forall k | 0 <= k < |sp| ensures sql[k] == NameStatement(seed + 2 * k + 1, sp[k].postName) {
      assert nc[k] == (seed + 2 * k + 1, sp[k].postName);
    }
  }

  // ---------------------------------------------------------------------------
  // A worked example: post 100 in both languages with attachment 900, seed 500.

  const ExampleIds := IdPair(500, 501)

  /** The state pass 1 leaves in the example. */
  function ExampleMiddle(post: Item): State {
    State(502, map[100 := ExampleIds], [], [(501, post.title)], [(501, post.postName)])
  }

  /** The post's text is an English span followed by an Italian one. */
  predicate ExamplePost(post: Item, en: string, it: string) {
    post.id == 100 && !IsAttachment(post) &&
    post.content == Render([Tagged(En, en), Tagged(It, it)])
  }

  predicate ExampleAttachment(att: Item) {
    att.id == 900 && IsAttachment(att) && att.parent == 100 && !HasLangTag(att.content)
  }

  /** Two language spans are a multilingual text. */
  lemma TwoSpansMultilingual(post: Item, en: string, it: string)
    requires post.content == Render([Tagged(En, en), Tagged(It, it)])
    ensures Multilingual(post)
  {
    var segs := [Tagged(En, en), Tagged(It, it)];
    assert segs[1..][1..] == [];
    assert Render(segs[1..]) == Open(It) + it + Close(It) + Render(segs[1..][1..]);
    var c := post.content;
    assert c == Open(En) + en + Close(En) + (Open(It) + it + Close(It) + []);
    assert c[..9] == Open(En);
    assert StartsAt(c, 0, "<lang_") && c[6] == 'e' && c[7] == 'n' && c[8] == '>';
    assert LangTagAt(c, 0);
  }

  lemma ExampleFirstStep(post: Item)
    requires post.id == 100 && Multilingual(post)
    ensures Step(First, Start(500), post) ==
      ([PostEn(post, ExampleIds), PostIt(post, ExampleIds)], ExampleMiddle(post))
  {
  }

  /** A pass over two items. */
  lemma RunPair(pass: Pass, a: Item, b: Item, st: State)
    ensures var s1 := Step(pass, st, a); var s2 := Step(pass, s1.1, b);
      Run(pass, [a, b], st) == (s1.0 + s2.0, s2.1)
  {
    assert [a, b] == [a] + [b] && [a] == [] + [a];
    RunSnoc(pass, [], a, st);
    RunSnoc(pass, [a], b, st);
    var s1 := Step(pass, st, a);
    assert [] + s1.0 == s1.0;
  }

  /** A pass over three items. */
  lemma RunTriple(pass: Pass, a: Item, b: Item, c: Item, st: State)
    ensures var s1 := Step(pass, st, a); var s2 := Step(pass, s1.1, b); var s3 := Step(pass, s2.1, c);
      Run(pass, [a, b, c], st) == (s1.0 + s2.0 + s3.0, s3.1)
  {
    assert [a, b, c] == [a, b] + [c];
    RunPair(pass, a, b, st);
    RunSnoc(pass, [a, b], c, st);
  }

  lemma ExampleFirstPass(post: Item, en: string, it: string, att: Item)
    requires ExamplePost(post, en, it) && ExampleAttachment(att)
    ensures Run(First, [post, att], Start(500)) ==
      ([PostEn(post, ExampleIds), PostIt(post, ExampleIds), att], ExampleMiddle(post))
  {
    TwoSpansMultilingual(post, en, it);
    ExampleFirstStep(post);
    RunPair(First, post, att, Start(500));
    var mid := ExampleMiddle(post);
    assert Step(First, mid, att) == ([att], mid);
    assert [PostEn(post, ExampleIds), PostIt(post, ExampleIds)] + [att] ==
      [PostEn(post, ExampleIds), PostIt(post, ExampleIds), att];
  }

  lemma ExampleSecondPass(post: Item, en: string, it: string, att: Item)
    requires ExamplePost(post, en, it) && ExampleAttachment(att)
    ensures var r := Run(Second, [PostEn(post, ExampleIds), PostIt(post, ExampleIds), att], ExampleMiddle(post));
      r.0 == [PostEn(post, ExampleIds), PostIt(post, ExampleIds),
              AttachmentEn(att, IdPair(502, 503), ExampleIds), AttachmentIt(att, IdPair(502, 503), ExampleIds)] &&
      r.1.parentIdMap == [(502, 500), (503, 501)] &&
      r.1.nameCorrections == [(501, post.postName)]
  {
    var e, i, s := PostEn(post, ExampleIds), PostIt(post, ExampleIds), ExampleMiddle(post);
    SecondPassPostsFirst(e, i, att, s);
    ExampleSecondAttachment(post, att);
  }

  /** Pass 2 over two non-attachments and one more item: only the last one can change anything. */
  lemma SecondPassPostsFirst(e: Item, i: Item, att: Item, s: State)
    requires !IsAttachment(e) && !IsAttachment(i)
    ensures var r := Step(Second, s, att);
      Run(Second, [e, i, att], s) == ([e, i] + r.0, r.1)
  {
    RunTriple(Second, e, i, att, s);
    SecondStep(s, e);
    SecondStep(s, i);
    var r := Step(Second, s, att);
    assert [e] + [i] + r.0 == [e, i] + r.0;
  }

  /** Pass 2 on the attachment of the example: it is split into 502 and 503. */
  lemma ExampleSecondAttachment(post: Item, att: Item)
    requires ExampleAttachment(att)
    ensures var r := Step(Second, ExampleMiddle(post), att);
      r.0 == [AttachmentEn(att, IdPair(502, 503), ExampleIds), AttachmentIt(att, IdPair(502, 503), ExampleIds)] &&
      r.1.parentIdMap == [(502, 500), (503, 501)] &&
      r.1.nameCorrections == [(501, post.postName)]
  {
    var s := ExampleMiddle(post);
    SecondStep(s, att);
    assert s.itemIdMap[att.id := IdPair(502, 503)][att.parent] == ExampleIds;
  }

  /** The two texts of a two-span document, for the source's stripper and for
      the corrected one alike; an empty span does no harm here, as no closing
      marker follows it. */
  lemma TwoSpansVersions(en: string, it: string)
    requires '<' !in en && '<' !in it
    ensures StripAsWritten(Render([Tagged(En, en), Tagged(It, it)]), En) == en
    ensures StripAsWritten(Render([Tagged(En, en), Tagged(It, it)]), It) == it
    ensures Strip(Render([Tagged(En, en), Tagged(It, it)]), En) == en
    ensures Strip(Render([Tagged(En, en), Tagged(It, it)]), It) == it
  {
    var segs := [Tagged(En, en), Tagged(It, it)];
    NoAngleInert(en);
    NoAngleInert(it);
    assert WellFormed(segs);
    StripRender(segs, En);
    StripRender(segs, It);
    assert segs[1..][1..] == [];
    assert Version(segs[1..][1..], En) == [] && Version(segs[1..][1..], It) == [];
    assert en + [] == en && it + [] == it;
    assert Render(segs) == Open(En) + en + Close(En) + (Open(It) + it + Close(It)) by {
      assert Render(segs[1..]) == Open(It) + it + Close(It) + Render(segs[1..][1..]);
    }
    if it == [] {
      TrailingEmptySpan(en);
    } else {
      StripAsWrittenRender(segs, En);
    }
    if en == [] {
      LeadingEmptySpan(it);
    } else {
      StripAsWrittenRender(segs, It);
    }
  }

  /** English text of an English span followed by an empty Italian one. */
  lemma TrailingEmptySpan(en: string)
    requires Inert(en)
    ensures StripAsWritten(Open(En) + en + Close(En) + (Open(It) + [] + Close(It)), En) == en
  {
    var e, i := Open(En) + en + Close(En), Open(It) + Close(It);
    assert Open(It) + [] + Close(It) == i;
    calc {
      RemoveSpans(e + i, It, 1);
      == { assert Other(It) == En; RemoveSpansOtherSpan(en, i, It, 1); }
      e + RemoveSpans(i, It, 1);
      == { assert i + [] == i; EmptySpanKept(It, [], 1); }
      e + i;
    }
    calc {
      RemoveMarkers(e + i, It);
      == { RemoveMarkersOtherSpan(en, i, It); }
      e + RemoveMarkers(i, It);
      == { RemoveMarkersOpen(Close(It), It); RemoveMarkersClose([], It); assert Close(It) + [] == Close(It); }
      e + [];
    }
    assert e + [] == e + [];
    RemoveMarkersUnwrap(en, [], En);
  }

  /** Italian text of an empty English span followed by an Italian one. */
  lemma LeadingEmptySpan(it: string)
    requires Inert(it)
    ensures StripAsWritten(Open(En) + [] + Close(En) + (Open(It) + it + Close(It)), It) == it
  {
    var w := Open(It) + it + Close(It);
    var s := Open(En) + Close(En) + w;
    assert Open(En) + [] + Close(En) + w == s;
    OtherSpanAvoids(it, En);
    EmptySpanKept(En, w, 1);
    calc {
      RemoveMarkers(s, En);
      == { assert s == Open(En) + (Close(En) + w); RemoveMarkersOpen(Close(En) + w, En); }
      RemoveMarkers(Close(En) + w, En);
      == { RemoveMarkersClose(w, En); assert w + [] == w; }
      RemoveMarkers(w + [], En);
      == { RemoveMarkersOtherSpan(it, [], En); }
      w + RemoveMarkers([], En);
    }
    assert w + [] == w;
    RemoveMarkersUnwrap(it, [], It);
  }

  /** A title without markup gets the suffix in the Italian copy. */
  lemma PlainTitleSuffixed(title: string)
    requires '<' !in title
    ensures StripAsWritten(title, En) == title && ItalianTitle(title) == title + TitleSuffix
  {
    NoAngleInert(title);
    InertUnmarked(title);
    StripUnmarked(title, En, 0);
    StripUnmarked(title, It, 0);
  }

  /** The four items the example ends with. */
  function ExampleOut(post: Item, att: Item): seq<Item> {
    [PostEn(post, ExampleIds), PostIt(post, ExampleIds),
     AttachmentEn(att, IdPair(502, 503), ExampleIds), AttachmentIt(att, IdPair(502, 503), ExampleIds)]
  }

  /** Both passes and both files of the example. */
  lemma ExampleMigration(post: Item, en: string, it: string, att: Item)
    requires ExamplePost(post, en, it) && ExampleAttachment(att)
    ensures Migration([post, att], 500) ==
      Output(ExampleOut(post, att), AttachSql([(502, 500), (503, 501)]), NamesSql([(501, post.postName)]))
  {
    ExampleFirstPass(post, en, it, att);
    ExampleSecondPass(post, en, it, att);
  }

  lemma ExampleSql(name: string)
    ensures AttachSql([(502, 500), (503, 501)]) == [AttachStatement(502, 500), AttachStatement(503, 501)]
    ensures NamesSql([(501, name)]) == [NameStatement(501, name)]
  {
  }

  /** The example end to end, for any English text `en`, Italian text `it` and
      title without markup: the post becomes posts 500 (the English text, the slug
      kept) and 501 (the Italian text, the slug suffixed, and the title made unique
      because it had no markers); attachment 900 becomes 502 and 503, attached to
      500 and 501; `.attach.sql` attaches those two and `.names.sql` gives 501 back
      the original slug. */
  lemma MigrationExample(post: Item, en: string, it: string, att: Item)
    requires ExamplePost(post, en, it) && ExampleAttachment(att)
    requires '<' !in en && '<' !in it && '<' !in post.title
    ensures var out := Migration([post, att], 500);
      |out.doc| == 4 &&
      out.doc[0].id == 500 && out.doc[0].postName == post.postName && out.doc[0].content == en &&
      out.doc[0].title == post.title &&
      out.doc[1].id == 501 && out.doc[1].postName == post.postName + "-italiano" &&
      out.doc[1].content == it && out.doc[1].title == post.title + " (Italiano)" &&
      out.doc[2].id == 502 && out.doc[2].parent == 500 &&
      out.doc[3].id == 503 && out.doc[3].parent == 501 &&
      out.attachSql == [AttachStatement(502, 500), AttachStatement(503, 501)] &&
      out.namesSql == [NameStatement(501, post.postName)]
  {
    ExampleMigration(post, en, it, att);
    ExampleSql(post.postName);
    TwoSpansVersions(en, it);
    PlainTitleSuffixed(post.title);
  }
}
