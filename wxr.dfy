/** The part of a WordPress WXR export the scripts work on: the `<item>` elements of
    the channel, in document order, each with the fields the scripts read or write.
    XML nesting, CDATA sections and every other element are not part of this model. */
module Wxr {

  /** A child element appended to an item: a `<category>` or a `<wp:postmeta>`. */
  datatype Extra =
    | Category(domain: string, nicename: string, name: string)
    | PostMeta(key: string, value: string)

  /** `wp:post_id` and `wp:post_parent` as read with `to_i`; `guid`, `link`,
      `wp:post_name`, `title`, `content:encoded` and `excerpt:encoded` as text;
      `extras` are the categories and meta entries, in order. */
  datatype Item = Item(
    id: int,
    postType: string,
    parent: int,
    title: string,
    content: string,
    excerpt: string,
    postName: string,
    link: string,
    guid: string,
    extras: seq<Extra>)

  predicate IsAttachment(x: Item) {
    x.postType == "attachment"
  }

  predicate DistinctIds(items: seq<Item>) {
    forall i, j :: 0 <= i < j < |items| ==> items[i].id != items[j].id
  }

  function Ids(items: seq<Item>): seq<int> {
    seq(|items|, i requires 0 <= i < |items| => items[i].id)
  }

  /** The ids of the items, as a set. */
  function IdSet(items: seq<Item>): set<int> {
    set x | x in items :: x.id
  }

  function Attachments(items: seq<Item>): seq<Item> {
    if items == [] then []
    else (if IsAttachment(items[0]) then [items[0]] else []) + Attachments(items[1..])
  }

  function NonAttachments(items: seq<Item>): seq<Item> {
    if items == [] then []
    else (if IsAttachment(items[0]) then [] else [items[0]]) + NonAttachments(items[1..])
  }

  lemma {:induction false} AttachmentsIn(items: seq<Item>)
    ensures forall y :: y in Attachments(items) ==> y in items && IsAttachment(y)
  {
    if items != [] {
      AttachmentsIn(items[1..]);
    }
  }

  lemma AttachmentsAppend(a: seq<Item>, b: seq<Item>)
    ensures Attachments(a + b) == Attachments(a) + Attachments(b)
    ensures NonAttachments(a + b) == NonAttachments(a) + NonAttachments(b)
  {
    AttachmentsOnlyAppend(a, b);
    NonAttachmentsAppend(a, b);
  }

  lemma {:induction false} AttachmentsOnlyAppend(a: seq<Item>, b: seq<Item>)
    ensures Attachments(a + b) == Attachments(a) + Attachments(b)
  {
    if a == [] {
      assert a + b == b;
    } else {
      var h := if IsAttachment(a[0]) then [a[0]] else [];
      calc {
        Attachments(a + b);
        == { assert (a + b)[0] == a[0] && (a + b)[1..] == a[1..] + b; }
        h + Attachments(a[1..] + b);
        == { AttachmentsOnlyAppend(a[1..], b); }
        h + (Attachments(a[1..]) + Attachments(b));
        ==
        (h + Attachments(a[1..])) + Attachments(b);
      }
    }
  }

  lemma {:induction false} NonAttachmentsAppend(a: seq<Item>, b: seq<Item>)
    ensures NonAttachments(a + b) == NonAttachments(a) + NonAttachments(b)
  {
    if a == [] {
      assert a + b == b;
    } else {
      var h := if IsAttachment(a[0]) then [] else [a[0]];
      calc {
        NonAttachments(a + b);
        == { assert (a + b)[0] == a[0] && (a + b)[1..] == a[1..] + b; }
        h + NonAttachments(a[1..] + b);
        == { NonAttachmentsAppend(a[1..], b); }
        h + (NonAttachments(a[1..]) + NonAttachments(b));
        ==
        (h + NonAttachments(a[1..])) + NonAttachments(b);
      }
    }
  }

  /** Filtering a list grown by one item. */
  lemma FiltersSnoc(xs: seq<Item>, x: Item)
    ensures Attachments(xs + [x]) == Attachments(xs) + (if IsAttachment(x) then [x] else [])
    ensures NonAttachments(xs + [x]) == NonAttachments(xs) + (if IsAttachment(x) then [] else [x])
  {
    AttachmentsAppend(xs, [x]);
    assert [x][1..] == [];
  }

  /** Filtering keeps the ids distinct. */
  lemma {:induction false} AttachmentsDistinct(items: seq<Item>)
    requires DistinctIds(items)
    ensures DistinctIds(Attachments(items))
  {
    if items != [] {
      var tail := items[1..];
      assert DistinctIds(tail) by {
        forall i, j | 0 <= i < j < |tail| ensures tail[i].id != tail[j].id {
          assert tail[i] == items[i + 1] && tail[j] == items[j + 1];
        }
      }
      AttachmentsDistinct(tail);
      AttachmentsIn(tail);
      var rest := Attachments(tail);
      forall y | y in rest ensures y.id != items[0].id {
        var k :| 0 <= k < |tail| && tail[k] == y;
        assert items[k + 1] == y;
      }
      var r := Attachments(items);
      forall i, j | 0 <= i < j < |r| ensures r[i].id != r[j].id {
        if IsAttachment(items[0]) {
          if i == 0 {
            assert r[j] == rest[j - 1] && r[j] in rest;
          } else {
            assert r[i] == rest[i - 1] && r[j] == rest[j - 1];
          }
        } else {
          assert r == rest;
        }
      }
    }
  }
}
