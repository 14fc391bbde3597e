/** The Polyglot markup stripper shared by polyglot2polylang.rb and depolyglot.rb.

    Polyglot marks the two language versions of a text inline, as
    `<lang_en>…</lang_en>` and `<lang_it>…</lang_it>`. `to_english` and `to_italian`
    keep one language by three rewrites of the whole string, each a left-to-right,
    non-overlapping replacement (Ruby's `gsub`):
      1. remove every span of the other language, opening marker to the nearest
         closing marker, newlines included;
      2. remove stray opening or closing markers of the other language;
      3. remove the markers of the kept language, keeping the text between them.
    Here `Strip(s, En)` is `to_english(s)` and `Strip(s, It)` is `to_italian(s)`. */
module Markup {
  import opened Text

  datatype Lang = En | It

  function Other(l: Lang): Lang {
    if l == En then It else En
  }

  function Open(l: Lang): string {
    if l == En then "<lang_en>" else "<lang_it>"
  }

  function Close(l: Lang): string {
    if l == En then "</lang_en>" else "</lang_it>"
  }

  predicate IsMarker(m: string) {
    m == Open(En) || m == Close(En) || m == Open(It) || m == Close(It)
  }

  /** Step 1: `gsub(/<lang_X>.{minBody,}?<\/lang_X>/m, '')` for the language `l`.
      The span starts at an opening marker and ends at the first closing marker
      that leaves at least `minBody` characters between them. Where no closing
      marker follows, the regular expression fails at that position and the
      scan moves on by one character. */
  function RemoveSpans(s: string, l: Lang, minBody: nat): string {
    Excise(s, Open(l), Close(l), minBody)
  }

  /** The scan of step 1 for the opening text `o` and the closing text `c`. */
  function Excise(s: string, o: string, c: string, minBody: nat): string
    requires |o| > 0
    decreases |s|
  {
    if s == [] then []
    else if StartsAt(s, 0, o) then
      match FindFrom(s, c, |o| + minBody)
      case Some(k) => Excise(s[k + |c|..], o, c, minBody)
      case None => [s[0]] + Excise(s[1..], o, c, minBody)
    else [s[0]] + Excise(s[1..], o, c, minBody)
  }

  /** Steps 2 and 3: `gsub(/<\/?lang_X>/, '')` for the language `l`. */
  function RemoveMarkers(s: string, l: Lang): string
    decreases |s|
  {
    if s == [] then []
    else if StartsAt(s, 0, Open(l)) then RemoveMarkers(s[|Open(l)|..], l)
    else if StartsAt(s, 0, Close(l)) then RemoveMarkers(s[|Close(l)|..], l)
    else [s[0]] + RemoveMarkers(s[1..], l)
  }

  function StripWith(s: string, l: Lang, minBody: nat): string {
    RemoveMarkers(RemoveMarkers(RemoveSpans(s, Other(l), minBody), Other(l)), l)
  }

  /** The stripper as the source writes it: the span body `.+?` must be non-empty. */
  function StripAsWritten(s: string, l: Lang): string {
    StripWith(s, l, 1)
  }

  /** The corrected stripper, with an empty span body allowed (`.*?`): it turns
      every well-formed text into its version (`StripRender`). It differs from
      `StripAsWritten`, which the scripts' models use, only on texts holding an
      empty span of the other language (see `StripAgreesWithoutEmptySpans`). */
  function Strip(s: string, l: Lang): string {
    StripWith(s, l, 0)
  }

  // ---------------------------------------------------------------------------
  // Texts without markers.

  predicate MarkerAt(s: string, i: int) {
    StartsAt(s, i, Open(En)) || StartsAt(s, i, Close(En)) ||
    StartsAt(s, i, Open(It)) || StartsAt(s, i, Close(It))
  }

  predicate Unmarked(s: string) {
    forall i :: 0 <= i < |s| ==> !MarkerAt(s, i)
  }

  /** The split test `=~ /<\/?lang_..>/` (no `m` flag): `<`, an optional `/`,
      `lang_`, two characters other than a newline, then `>`. */
  predicate LangTagAt(s: string, i: int) {
    (StartsAt(s, i, "<lang_") && TagTail(s, i + 6)) ||
    (StartsAt(s, i, "</lang_") && TagTail(s, i + 7))
  }

  predicate TagTail(s: string, j: int) {
    0 <= j && j + 3 <= |s| && s[j] != '\n' && s[j + 1] != '\n' && s[j + 2] == '>'
  }

  /** `s =~ /<\/?lang_..>/`: the regular expression is tried at each index in turn. */
  predicate HasLangTag(s: string) {
    LangTagFrom(s, 0)
  }

  predicate LangTagFrom(s: string, i: nat)
    decreases |s| - i
  {
    i < |s| && (LangTagAt(s, i) || LangTagFrom(s, i + 1))
  }

  lemma {:induction false} LangTagFromExists(s: string, i: nat)
    ensures LangTagFrom(s, i) <==> exists j :: i <= j < |s| && LangTagAt(s, j)
    decreases |s| - i
  {
    if i < |s| {
      LangTagFromExists(s, i + 1);
    }
  }

  /** Each of the four Polyglot markers matches the split test. */
  lemma MarkerIsLangTag(s: string, i: int)
    ensures MarkerAt(s, i) ==> LangTagAt(s, i)
  {
    if StartsAt(s, i, Open(En)) || StartsAt(s, i, Open(It)) {
      var m := s[i..i + 9];
      assert s[i..i + 6] == m[..6];
      assert s[i + 6] == m[6] && s[i + 7] == m[7] && s[i + 8] == m[8];
    } else if StartsAt(s, i, Close(En)) || StartsAt(s, i, Close(It)) {
      var m := s[i..i + 10];
      assert s[i..i + 7] == m[..7];
      assert s[i + 7] == m[7] && s[i + 8] == m[8] && s[i + 9] == m[9];
    }
  }

  /** A text the split test rejects holds no marker, so both strippers return it
      unchanged: an item left whole would not have been changed by stripping. */
  lemma NoLangTagUnmarked(s: string, l: Lang)
    ensures !HasLangTag(s) ==> Unmarked(s) && Strip(s, l) == s && StripAsWritten(s, l) == s
  {
    LangTagFromExists(s, 0);
    forall i | 0 <= i < |s| ensures MarkerAt(s, i) ==> LangTagAt(s, i) {
      MarkerIsLangTag(s, i);
    }
    if Unmarked(s) {
      StripUnmarked(s, l, 0);
    }
  }

  /** The split test is wider than the markers: any two-letter language tag,
      such as `<lang_fr>`, matches it although neither stripper removes it. */
  lemma ForeignTagDetected()
    ensures HasLangTag("<lang_fr>") && Unmarked("<lang_fr>")
  {
    assert LangTagAt("<lang_fr>", 0);
    var s := "<lang_fr>";
    forall i | 0 <= i < |s| ensures !MarkerAt(s, i) {
      if i == 0 {
        assert s[i..i + 9][6] != Open(En)[6] && s[i..i + 9][6] != Open(It)[6];
      }
    }
  }

  /** If `p` does not start anywhere inside the prefix `t`, the scan of step 1
      copies `t` unchanged. */
  lemma {:induction false} RemoveSpansPrefix(t: string, rest: string, l: Lang, minBody: nat)
    requires forall i :: 0 <= i < |t| ==> !StartsAt(t + rest, i, Open(l))
    ensures RemoveSpans(t + rest, l, minBody) == t + RemoveSpans(rest, l, minBody)
  {
    if t != [] {
      var s := t + rest;
      assert s[0] == t[0] && s[1..] == t[1..] + rest;
      NotStartingInTail(t, rest, Open(l));
      calc {
        RemoveSpans(s, l, minBody);
        == { assert !StartsAt(s, 0, Open(l)); RemoveSpansSkip(s, l, minBody); }
        [t[0]] + RemoveSpans(t[1..] + rest, l, minBody);
        == { RemoveSpansPrefix(t[1..], rest, l, minBody); }
        [t[0]] + (t[1..] + RemoveSpans(rest, l, minBody));
        == { AppendAssoc([t[0]], t[1..], RemoveSpans(rest, l, minBody)); assert [t[0]] + t[1..] == t; }
        t + RemoveSpans(rest, l, minBody);
      }
    } else {
      assert t + rest == rest;
    }
  }

  /** Where no marker starts, step 2 keeps the first character. */
  lemma RemoveMarkersSkip(s: string, l: Lang)
    requires s != [] && !StartsAt(s, 0, Open(l)) && !StartsAt(s, 0, Close(l))
    ensures RemoveMarkers(s, l) == [s[0]] + RemoveMarkers(s[1..], l)
  {
  }

  /** A pattern that starts nowhere in `t` starts nowhere in `t` without its first character. */
  lemma NotStartingInTail(t: string, rest: string, p: string)
    requires t != [] && forall i :: 0 <= i < |t| ==> !StartsAt(t + rest, i, p)
    ensures forall i :: 0 <= i < |t[1..]| ==> !StartsAt(t[1..] + rest, i, p)
  {
    forall i | 0 <= i < |t[1..]| ensures !StartsAt(t[1..] + rest, i, p) {
      assert t + rest == [t[0]] + (t[1..] + rest);
      StartsAtShift([t[0]], t[1..] + rest, i, p);
    }
  }

  lemma {:induction false} RemoveMarkersPrefix(t: string, rest: string, l: Lang)
    requires forall i :: 0 <= i < |t| ==> !StartsAt(t + rest, i, Open(l)) && !StartsAt(t + rest, i, Close(l))
    ensures RemoveMarkers(t + rest, l) == t + RemoveMarkers(rest, l)
  {
    if t != [] {
      var s := t + rest;
      assert !StartsAt(s, 0, Open(l)) && !StartsAt(s, 0, Close(l));
      assert s[0] == t[0] && s[1..] == t[1..] + rest;
      NotStartingInTail(t, rest, Open(l));
      NotStartingInTail(t, rest, Close(l));
      calc {
        RemoveMarkers(s, l);
        == { RemoveMarkersSkip(s, l); }
        [t[0]] + RemoveMarkers(t[1..] + rest, l);
        == { RemoveMarkersPrefix(t[1..], rest, l); }
        [t[0]] + (t[1..] + RemoveMarkers(rest, l));
        == { AppendAssoc([t[0]], t[1..], RemoveMarkers(rest, l)); assert [t[0]] + t[1..] == t; }
        t + RemoveMarkers(rest, l);
      }
    } else {
      assert t + rest == rest;
    }
  }

  /** A text without any `lang_en` or `lang_it` marker comes out of both
      `to_english` and `to_italian` unchanged (also as the source writes them). */
  lemma StripUnmarked(s: string, l: Lang, minBody: nat)
    requires Unmarked(s)
    ensures StripWith(s, l, minBody) == s
    ensures Strip(s, l) == s && StripAsWritten(s, l) == s
  {
    assert s + [] == s;
    forall i, l': Lang | 0 <= i < |s|
      ensures !StartsAt(s + [], i, Open(l')) && !StartsAt(s + [], i, Close(l'))
    {
      assert !MarkerAt(s, i);
      assert l' == En || l' == It;
    }
    forall minBody': nat ensures StripWith(s, l, minBody') == s {
      RemoveSpansPrefix(s, [], Other(l), minBody');
      RemoveMarkersPrefix(s, [], Other(l));
      RemoveMarkersPrefix(s, [], l);
    }
  }

  // ---------------------------------------------------------------------------
  // Texts that cannot combine with their neighbours into a marker.

  /** From index `i` on, `t` agrees with the marker `m` as far as both go: either
      `m` occurs at `i` or `t` ends with a proper prefix of `m`. */
  predicate Overlaps(t: string, i: int, m: string)
    requires 0 <= i <= |t|
  {
    var n := if |t| - i < |m| then |t| - i else |m|;
    t[i..i + n] == m[..n]
  }

  predicate Avoids(t: string, m: string) {
    forall i :: 0 <= i < |t| ==> !Overlaps(t, i, m)
  }

  /** A text that neither holds a marker nor ends with the beginning of one. */
  predicate Inert(t: string) {
    Avoids(t, Open(En)) && Avoids(t, Close(En)) && Avoids(t, Open(It)) && Avoids(t, Close(It))
  }

  /** A marker occurring at `i` in `t + rest` overlaps `t` at `i`. */
  lemma StartsAtOverlaps(t: string, rest: string, m: string, i: int)
    requires 0 <= i < |t| && StartsAt(t + rest, i, m)
    ensures Overlaps(t, i, m)
  {
    var n := if |t| - i < |m| then |t| - i else |m|;
    assert (t + rest)[i..i + n] == t[i..i + n];
    assert (t + rest)[i..i + n] == (t + rest)[i..i + |m|][..n];
  }

  lemma AvoidsNoStart(t: string, rest: string, m: string)
    requires Avoids(t, m)
    ensures forall i :: 0 <= i < |t| ==> !StartsAt(t + rest, i, m)
  {
    forall i | 0 <= i < |t| && StartsAt(t + rest, i, m) ensures false {
      StartsAtOverlaps(t, rest, m, i);
    }
  }

  /** An overlap of `a + b` at an index inside `a` is an overlap of `a` there. */
  lemma OverlapsPrefix(a: string, b: string, m: string, i: int)
    requires 0 <= i < |a| && Overlaps(a + b, i, m)
    ensures Overlaps(a, i, m)
  {
    var s := a + b;
    var n := if |s| - i < |m| then |s| - i else |m|;
    var na := if |a| - i < |m| then |a| - i else |m|;
    assert s[i..i + na] == s[i..i + n][..na];
    assert m[..na] == m[..n][..na];
    assert s[i..i + na] == a[i..i + na];
  }

  lemma AvoidsConcat(a: string, b: string, m: string)
    requires Avoids(a, m) && Avoids(b, m)
    ensures Avoids(a + b, m)
  {
    var s := a + b;
    forall i | 0 <= i < |a| && Overlaps(s, i, m) ensures false {
      OverlapsPrefix(a, b, m, i);
    }
    forall i | |a| <= i < |s| ensures !Overlaps(s, i, m) {
      var n := if |s| - i < |m| then |s| - i else |m|;
      assert s[i..i + n] == b[i - |a|..i - |a| + n];
      assert !Overlaps(b, i - |a|, m);
    }
  }

  lemma InertConcat(a: string, b: string)
    requires Inert(a) && Inert(b)
    ensures Inert(a + b)
  {
    AvoidsConcat(a, b, Open(En));
    AvoidsConcat(a, b, Close(En));
    AvoidsConcat(a, b, Open(It));
    AvoidsConcat(a, b, Close(It));
  }

  lemma InertUnmarked(t: string)
    requires Inert(t)
    ensures Unmarked(t)
  {
    assert t + [] == t;
    AvoidsNoStart(t, [], Open(En));
    AvoidsNoStart(t, [], Close(En));
    AvoidsNoStart(t, [], Open(It));
    AvoidsNoStart(t, [], Close(It));
  }

  /** Two different markers never overlap: `<` stands only at the start of a
      marker, and two markers differ at index 1, 6 or 7. */
  lemma MarkersAvoid(a: string, b: string)
    requires IsMarker(a) && IsMarker(b) && a != b
    ensures Avoids(a, b)
  {
    forall i | 0 <= i < |a| ensures !Overlaps(a, i, b) {
      if i == 0 {
        assert a[1] != b[1] || a[6] != b[6] || a[7] != b[7];
        DifferAt(a, b, 1, 6, 7);
      } else {
        assert a[i] != '<' && b[0] == '<';
        LateStartAvoids(a, i, b);
      }
    }
  }

  /** Two texts of at least nine characters differing at one of three positions
      below nine do not overlap at the start. */
  lemma DifferAt(a: string, b: string, p: int, q: int, r: int)
    requires 9 <= |a| && 9 <= |b| && 0 <= p < 9 && 0 <= q < 9 && 0 <= r < 9
    requires a[p] != b[p] || a[q] != b[q] || a[r] != b[r]
    ensures !Overlaps(a, 0, b)
  {
    var n := if |a| < |b| then |a| else |b|;
    assert a[..n][p] == a[p] && a[..n][q] == a[q] && a[..n][r] == a[r];
    assert b[..n][p] == b[p] && b[..n][q] == b[q] && b[..n][r] == b[r];
  }

  /** A position whose character differs from the first of `b` is no overlap. */
  lemma LateStartAvoids(a: string, i: int, b: string)
    requires 0 <= i < |a| && |b| > 0 && a[i] != b[0]
    ensures !Overlaps(a, i, b)
  {
    var n := if |a| - i < |b| then |a| - i else |b|;
    assert a[i..i + n][0] == a[i];
    assert b[..n][0] == b[0];
  }

  // ---------------------------------------------------------------------------
  // Well-formed Polyglot documents.

  /** A piece of a Polyglot text: text shared by both languages, or a span
      that belongs to one language. */
  datatype Segment = Plain(text: string) | Tagged(lang: Lang, text: string)

  function RenderSegment(g: Segment): string {
    match g
    case Plain(t) => t
    case Tagged(l, t) => Open(l) + t + Close(l)
  }

  /** The marked-up text of a document. */
  function Render(segs: seq<Segment>): string {
    if segs == [] then [] else RenderSegment(segs[0]) + Render(segs[1..])
  }

  /** The marked-up text with the spans of language `r` left out. */
  function Drop(segs: seq<Segment>, r: Lang): string {
    if segs == [] then []
    else if segs[0].Tagged? && segs[0].lang == r then Drop(segs[1..], r)
    else RenderSegment(segs[0]) + Drop(segs[1..], r)
  }

  /** The text a reader of language `l` should see. */
  function Version(segs: seq<Segment>, l: Lang): string {
    if segs == [] then []
    else if segs[0].Tagged? && segs[0].lang != l then Version(segs[1..], l)
    else segs[0].text + Version(segs[1..], l)
  }

  predicate WellFormed(segs: seq<Segment>) {
    forall i :: 0 <= i < |segs| ==> Inert(segs[i].text)
  }

  /** Every span of language `r` has at least `minBody` characters. */
  predicate BodiesAtLeast(segs: seq<Segment>, r: Lang, minBody: nat) {
    forall i :: 0 <= i < |segs| && segs[i].Tagged? && segs[i].lang == r ==> |segs[i].text| >= minBody
  }

  lemma MarkerAvoidsMarkersOf(m: string, l: Lang)
    requires m == Open(Other(l)) || m == Close(Other(l))
    ensures Avoids(m, Open(l)) && Avoids(m, Close(l))
  {
    MarkersAvoid(m, Open(l));
    MarkersAvoid(m, Close(l));
  }

  lemma InertAvoids(t: string, l: Lang)
    requires Inert(t)
    ensures Avoids(t, Open(l)) && Avoids(t, Close(l))
  {
    if l == En {
      assert Open(l) == Open(En) && Close(l) == Close(En);
    } else {
      assert Open(l) == Open(It) && Close(l) == Close(It);
    }
  }

  /** Step 1 copies text that holds no marker. */
  lemma RemoveSpansPlain(t: string, rest: string, r: Lang, minBody: nat)
    requires Inert(t)
    ensures RemoveSpans(t + rest, r, minBody) == t + RemoveSpans(rest, r, minBody)
  {
    InertAvoids(t, r);
    AvoidsNoStart(t, rest, Open(r));
    RemoveSpansPrefix(t, rest, r, minBody);
  }

  /** Steps 2 and 3 copy text that holds no marker. */
  lemma RemoveMarkersPlain(t: string, rest: string, r: Lang)
    requires Inert(t)
    ensures RemoveMarkers(t + rest, r) == t + RemoveMarkers(rest, r)
  {
    InertAvoids(t, r);
    AvoidsNoStart(t, rest, Open(r));
    AvoidsNoStart(t, rest, Close(r));
    RemoveMarkersPrefix(t, rest, r);
  }

  /** Step 1 deletes an opening marker of `r`, the body `t` and the first closing
      marker after at least `minBody` characters. */
  lemma RemoveSpansFirstClose(t: string, rest: string, r: Lang, minBody: nat)
    requires |t| >= minBody
    requires forall j :: minBody <= j < |t| ==> !StartsAt(t + (Close(r) + rest), j, Close(r))
    ensures RemoveSpans(Open(r) + t + Close(r) + rest, r, minBody) == RemoveSpans(rest, r, minBody)
  {
    var x := Open(r) + t + Close(r) + rest;
    FirstCloseAfter(Open(r), t, Close(r), rest, minBody);
    RemoveSpansAtSpan(x, r, minBody, |Open(r)| + |t|);
  }

  /** In `o + t + c + rest`, where `c` does not start in `t` from index `minBody`
      on, the first `c` from `|o| + minBody` on is the one after `t`. */
  lemma FirstCloseAfter(o: string, t: string, c: string, rest: string, minBody: nat)
    requires |t| >= minBody
    requires forall j :: minBody <= j < |t| ==> !StartsAt(t + (c + rest), j, c)
    ensures var x := o + t + c + rest;
      StartsAt(x, 0, o) && FindFrom(x, c, |o| + minBody) == Some(|o| + |t|) &&
      x[|o| + |t| + |c|..] == rest
  {
    var y := t + (c + rest);
    var x := o + y;
    assert o + t + c + rest == x;
    var k := |o| + |t|;
    assert StartsAt(x, 0, o) by {
      assert x[..|o|] == o;
    }
    assert StartsAt(x, k, c) by {
      assert o + t + (c + rest) == x;
      StartsAtShift(o + t, c + rest, 0, c);
    }
    forall j | |o| + minBody <= j < k ensures !StartsAt(x, j, c) {
      StartsAtShift(o, y, j - |o|, c);
    }
    FindFromFirst(x, c, |o| + minBody, k);
    assert x[k + |c|..] == rest by {
      assert x == (o + t + c) + rest;
    }
  }

  lemma RemoveSpansAtSpan(x: string, r: Lang, minBody: nat, k: nat)
    requires StartsAt(x, 0, Open(r))
    requires FindFrom(x, Close(r), |Open(r)| + minBody) == Some(k)
    ensures RemoveSpans(x, r, minBody) == RemoveSpans(x[k + |Close(r)|..], r, minBody)
  {
    ExciseAtSpan(x, Open(r), Close(r), minBody, k);
  }

  lemma ExciseAtSpan(x: string, o: string, c: string, minBody: nat, k: nat)
    requires |o| > 0 && StartsAt(x, 0, o) && FindFrom(x, c, |o| + minBody) == Some(k)
    ensures Excise(x, o, c, minBody) == Excise(x[k + |c|..], o, c, minBody)
  {
  }

  /** Step 1 deletes a whole span of language `r` whose body is long enough. */
  lemma RemoveSpansSpan(t: string, rest: string, r: Lang, minBody: nat)
    requires Inert(t) && |t| >= minBody
    ensures RemoveSpans(Open(r) + t + Close(r) + rest, r, minBody) == RemoveSpans(rest, r, minBody)
  {
    InertAvoids(t, r);
    AvoidsNoStart(t, Close(r) + rest, Close(r));
    RemoveSpansFirstClose(t, rest, r, minBody);
  }

  /** A span of the other language, markers included, holds no marker of `r`
      and cannot combine with what follows into one. */
  lemma OtherSpanAvoids(t: string, r: Lang)
    requires Inert(t)
    ensures Avoids(Open(Other(r)) + t + Close(Other(r)), Open(r))
    ensures Avoids(Open(Other(r)) + t + Close(Other(r)), Close(r))
  {
    var o := Other(r);
    MarkerAvoidsMarkersOf(Open(o), r);
    MarkerAvoidsMarkersOf(Close(o), r);
    InertAvoids(t, r);
    AvoidsConcat(Open(o), t, Open(r));
    AvoidsConcat(Open(o) + t, Close(o), Open(r));
    AvoidsConcat(Open(o), t, Close(r));
    AvoidsConcat(Open(o) + t, Close(o), Close(r));
  }

  /** Step 1 passes over a span of the other language. */
  lemma RemoveSpansOtherSpan(t: string, rest: string, r: Lang, minBody: nat)
    requires Inert(t)
    ensures RemoveSpans(Open(Other(r)) + t + Close(Other(r)) + rest, r, minBody)
         == Open(Other(r)) + t + Close(Other(r)) + RemoveSpans(rest, r, minBody)
  {
    var w := Open(Other(r)) + t + Close(Other(r));
    OtherSpanAvoids(t, r);
    AvoidsNoStart(w, rest, Open(r));
    RemoveSpansPrefix(w, rest, r, minBody);
  }

  /** Step 2 passes over a span of the other language. */
  lemma RemoveMarkersOtherSpan(t: string, rest: string, r: Lang)
    requires Inert(t)
    ensures RemoveMarkers(Open(Other(r)) + t + Close(Other(r)) + rest, r)
         == Open(Other(r)) + t + Close(Other(r)) + RemoveMarkers(rest, r)
  {
    var w := Open(Other(r)) + t + Close(Other(r));
    OtherSpanAvoids(t, r);
    AvoidsNoStart(w, rest, Open(r));
    AvoidsNoStart(w, rest, Close(r));
    RemoveMarkersPrefix(w, rest, r);
  }

  /** Step 3 removes the two markers of a kept span and keeps its text. */
  lemma RemoveMarkersUnwrap(t: string, rest: string, l: Lang)
    requires Inert(t)
    ensures RemoveMarkers(Open(l) + t + Close(l) + rest, l) == t + RemoveMarkers(rest, l)
  {
    var y := Close(l) + rest;
    assert Open(l) + t + Close(l) + rest == Open(l) + (t + y);
    calc {
      RemoveMarkers(Open(l) + (t + y), l);
      == { RemoveMarkersOpen(t + y, l); }
      RemoveMarkers(t + y, l);
      == { RemoveMarkersPlain(t, y, l); }
      t + RemoveMarkers(y, l);
      == { RemoveMarkersClose(rest, l); }
      t + RemoveMarkers(rest, l);
    }
  }

  /** Steps 2 and 3 drop an opening marker of `l`. */
  lemma RemoveMarkersOpen(y: string, l: Lang)
    ensures RemoveMarkers(Open(l) + y, l) == RemoveMarkers(y, l)
  {
    var x := Open(l) + y;
    RemoveMarkersAt(x, Open(l), l);
    assert x[|Open(l)|..] == y;
  }

  /** Steps 2 and 3 drop a closing marker of `l`. */
  lemma RemoveMarkersClose(rest: string, l: Lang)
    ensures RemoveMarkers(Close(l) + rest, l) == RemoveMarkers(rest, l)
  {
    var y := Close(l) + rest;
    MarkersAvoid(Close(l), Open(l));
    AvoidsNoStart(Close(l), rest, Open(l));
    RemoveMarkersAt(y, Close(l), l);
    assert y[|Close(l)|..] == rest;
  }

  /** A marker of `l` at the front of the text is dropped by steps 2 and 3. */
  lemma RemoveMarkersAt(x: string, m: string, l: Lang)
    requires m == Open(l) || (m == Close(l) && !StartsAt(x, 0, Open(l)))
    requires StartsAt(x, 0, m)
    ensures RemoveMarkers(x, l) == RemoveMarkers(x[|m|..], l)
  {
  }

  lemma WellFormedTail(segs: seq<Segment>)
    requires segs != [] && WellFormed(segs)
    ensures WellFormed(segs[1..]) && Inert(segs[0].text)
  {
    assert forall i :: 0 <= i < |segs[1..]| ==> segs[1..][i] == segs[i + 1];
  }

  /** Step 1 removes exactly the spans of language `r`. */
  lemma {:induction false} RemoveSpansRender(segs: seq<Segment>, r: Lang, minBody: nat)
    requires WellFormed(segs) && BodiesAtLeast(segs, r, minBody)
    ensures RemoveSpans(Render(segs), r, minBody) == Drop(segs, r)
  {
    if segs != [] {
      WellFormedTail(segs);
      assert BodiesAtLeast(segs[1..], r, minBody) by {
        assert forall i :: 0 <= i < |segs[1..]| ==> segs[1..][i] == segs[i + 1];
      }
      RemoveSpansRender(segs[1..], r, minBody);
      var rest := Render(segs[1..]);
      match segs[0]
      case Plain(t) =>
        RemoveSpansPlain(t, rest, r, minBody);
      case Tagged(l, t) =>
        if l == r {
          RemoveSpansSpan(t, rest, r, minBody);
        } else {
          assert l == Other(r);
          RemoveSpansOtherSpan(t, rest, r, minBody);
        }
    }
  }

  /** Step 2 finds no stray marker of language `r` once its spans are gone. */
  lemma {:induction false} RemoveMarkersDrop(segs: seq<Segment>, r: Lang)
    requires WellFormed(segs)
    ensures RemoveMarkers(Drop(segs, r), r) == Drop(segs, r)
  {
    if segs != [] {
      WellFormedTail(segs);
      RemoveMarkersDrop(segs[1..], r);
      var rest := Drop(segs[1..], r);
      match segs[0]
      case Plain(t) =>
        RemoveMarkersPlain(t, rest, r);
      case Tagged(l, t) =>
        if l != r {
          assert l == Other(r);
          RemoveMarkersOtherSpan(t, rest, r);
        }
    }
  }

  /** Step 3 removes the markers of the kept language and keeps their text. */
  lemma {:induction false} RemoveMarkersKeep(segs: seq<Segment>, l: Lang)
    requires WellFormed(segs)
    ensures RemoveMarkers(Drop(segs, Other(l)), l) == Version(segs, l)
  {
    if segs != [] {
      WellFormedTail(segs);
      RemoveMarkersKeep(segs[1..], l);
      var rest := Drop(segs[1..], Other(l));
      match segs[0]
      case Plain(t) =>
        RemoveMarkersPlain(t, rest, l);
      case Tagged(l', t) =>
        if l' == l {
          RemoveMarkersUnwrap(t, rest, l);
        }
    }
  }

  /** `Strip` turns a well-formed Polyglot text into exactly the text of the
      chosen language: shared text and that language's spans, without markers. */
  lemma StripRender(segs: seq<Segment>, l: Lang)
    requires WellFormed(segs)
    ensures Strip(Render(segs), l) == Version(segs, l)
  {
    RemoveSpansRender(segs, Other(l), 0);
    RemoveMarkersDrop(segs, Other(l));
    RemoveMarkersKeep(segs, l);
  }

  /** The source's stripper does the same as long as no span of the other
      language is empty. */
  lemma StripAsWrittenRender(segs: seq<Segment>, l: Lang)
    requires WellFormed(segs) && BodiesAtLeast(segs, Other(l), 1)
    ensures StripAsWritten(Render(segs), l) == Version(segs, l)
  {
    RemoveSpansRender(segs, Other(l), 1);
    RemoveMarkersDrop(segs, Other(l));
    RemoveMarkersKeep(segs, l);
  }

  lemma {:induction false} VersionInert(segs: seq<Segment>, l: Lang)
    requires WellFormed(segs)
    ensures Inert(Version(segs, l))
  {
    if segs == [] {
      assert Version(segs, l) == [];
    } else {
      WellFormedTail(segs);
      VersionInert(segs[1..], l);
      if !(segs[0].Tagged? && segs[0].lang != l) {
        InertConcat(segs[0].text, Version(segs[1..], l));
      }
    }
  }

  /** Stripping the text of one language again changes nothing: on well-formed
      documents `Strip` is idempotent. */
  lemma StripIdempotent(segs: seq<Segment>, l: Lang)
    requires WellFormed(segs)
    ensures Strip(Strip(Render(segs), l), l) == Strip(Render(segs), l)
  {
    StripRender(segs, l);
    VersionInert(segs, l);
    InertUnmarked(Version(segs, l));
    StripUnmarked(Version(segs, l), l, 0);
  }

  // ---------------------------------------------------------------------------
  // The source's non-empty span body.

  lemma StartsAtSuffix(s: string, j: nat, i: nat, p: string)
    requires j <= |s|
    ensures StartsAt(s[j..], i, p) == StartsAt(s, j + i, p)
  {
    assert s == s[..j] + s[j..];
    StartsAtShift(s[..j], s[j..], i, p);
  }

  lemma StartsAtConcat(s: string, a: string, b: string)
    ensures StartsAt(s, 0, a) && StartsAt(s, |a|, b) ==> StartsAt(s, 0, a + b)
  {
    if StartsAt(s, 0, a) && StartsAt(s, |a|, b) {
      assert s[..|a| + |b|] == s[..|a|] + s[|a|..|a| + |b|];
    }
  }

  lemma FindFromSkip(s: string, p: string, from: nat)
    requires !StartsAt(s, from, p)
    ensures FindFrom(s, p, from) == FindFrom(s, p, from + 1)
  {
  }

  /** Text in which no empty span `<lang_X></lang_X>` of language `r` occurs. */
  predicate NoEmptySpan(s: string, r: Lang) {
    forall i :: 0 <= i <= |s| ==> !StartsAt(s, i, Open(r) + Close(r))
  }

  lemma {:induction false} RemoveSpansAgree(s: string, r: Lang)
    requires NoEmptySpan(s, r)
    ensures RemoveSpans(s, r, 1) == RemoveSpans(s, r, 0)
    decreases |s|
  {
    if s != [] {
      var f := FindFrom(s, Close(r), |Open(r)|);
      if StartsAt(s, 0, Open(r)) && f.Some? {
        var k := f.value;
        NoEmptySpanSuffix(s, r, k + |Close(r)|);
        RemoveSpansAgree(s[k + |Close(r)|..], r);
        AgreeAtSpan(s, r, k);
      } else {
        NoEmptySpanSuffix(s, r, 1);
        RemoveSpansAgree(s[1..], r);
        AgreeAtSkip(s, r);
      }
    }
  }

  lemma AgreeAtSpan(s: string, r: Lang, k: nat)
    requires NoEmptySpan(s, r) && StartsAt(s, 0, Open(r))
    requires FindFrom(s, Close(r), |Open(r)|) == Some(k)
    requires RemoveSpans(s[k + |Close(r)|..], r, 1) == RemoveSpans(s[k + |Close(r)|..], r, 0)
    ensures RemoveSpans(s, r, 1) == RemoveSpans(s, r, 0)
  {
    FindAfterOpen(s, r);
    RemoveSpansAtSpan(s, r, 1, k);
    RemoveSpansAtSpan(s, r, 0, k);
  }

  lemma AgreeAtSkip(s: string, r: Lang)
    requires NoEmptySpan(s, r) && s != []
    requires !StartsAt(s, 0, Open(r)) || FindFrom(s, Close(r), |Open(r)|).None?
    requires RemoveSpans(s[1..], r, 1) == RemoveSpans(s[1..], r, 0)
    ensures RemoveSpans(s, r, 1) == RemoveSpans(s, r, 0)
  {
    if StartsAt(s, 0, Open(r)) {
      FindAfterOpen(s, r);
    }
    RemoveSpansSkip(s, r, 1);
    RemoveSpansSkip(s, r, 0);
  }

  /** Where no span starts, the first character is kept. */
  lemma RemoveSpansSkip(s: string, r: Lang, minBody: nat)
    requires s != []
    requires !StartsAt(s, 0, Open(r)) || FindFrom(s, Close(r), |Open(r)| + minBody).None?
    ensures RemoveSpans(s, r, minBody) == [s[0]] + RemoveSpans(s[1..], r, minBody)
  {
    ExciseSkip(s, Open(r), Close(r), minBody);
  }

  lemma ExciseSkip(s: string, o: string, c: string, minBody: nat)
    requires |o| > 0 && s != [] && (!StartsAt(s, 0, o) || FindFrom(s, c, |o| + minBody).None?)
    ensures Excise(s, o, c, minBody) == [s[0]] + Excise(s[1..], o, c, minBody)
  {
  }

  lemma NoEmptySpanSuffix(s: string, r: Lang, j: nat)
    requires NoEmptySpan(s, r) && j <= |s|
    ensures NoEmptySpan(s[j..], r)
  {
    forall i | 0 <= i <= |s[j..]| ensures !StartsAt(s[j..], i, Open(r) + Close(r)) {
      StartsAtSuffix(s, j, i, Open(r) + Close(r));
    }
  }

  /** Without an empty span, a close marker never directly follows an opening one,
      so both searches find the same close marker. */
  lemma FindAfterOpen(s: string, r: Lang)
    requires NoEmptySpan(s, r) && StartsAt(s, 0, Open(r))
    ensures FindFrom(s, Close(r), |Open(r)|) == FindFrom(s, Close(r), |Open(r)| + 1)
  {
    StartsAtConcat(s, Open(r), Close(r));
    FindFromSkip(s, Close(r), |Open(r)|);
  }

  /** The source's `.+?` and the corrected `.*?` strip alike every text in which
      the other language has no empty span. */
  lemma StripAgreesWithoutEmptySpans(s: string, l: Lang)
    requires NoEmptySpan(s, Other(l))
    ensures StripAsWritten(s, l) == Strip(s, l)
  {
    RemoveSpansAgree(s, Other(l));
  }

  lemma NoAngleAvoids(t: string, m: string)
    requires '<' !in t && |m| > 0 && m[0] == '<'
    ensures Avoids(t, m)
  {
    forall i | 0 <= i < |t| ensures !Overlaps(t, i, m) {
      var n := if |t| - i < |m| then |t| - i else |m|;
      assert t[i..i + n][0] == t[i];
      assert t[i] in t;
    }
  }

  /** Text without a `<` cannot hold or start a marker. */
  lemma NoAngleInert(t: string)
    requires '<' !in t
    ensures Inert(t)
  {
    NoAngleAvoids(t, Open(En));
    NoAngleAvoids(t, Close(En));
    NoAngleAvoids(t, Open(It));
    NoAngleAvoids(t, Close(It));
  }

  /** The document `<lang_it></lang_it><lang_en>x</lang_en><lang_it>y</lang_it>`. */
  function EmptySpanDoc(x: string, y: string): seq<Segment> {
    [Tagged(It, []), Tagged(En, x), Tagged(It, y)]
  }

  lemma EmptySpanDocRender(x: string, y: string)
    ensures Render(EmptySpanDoc(x, y))
         == Open(It) + (Close(It) + Open(En) + x + Close(En) + Open(It) + y) + Close(It) + []
  {
    var doc := EmptySpanDoc(x, y);
    var oi, ci, oe, ce := Open(It), Close(It), Open(En), Close(En);
    var d1, d2 := [Tagged(En, x), Tagged(It, y)], [Tagged(It, y)];
    assert doc[1..] == d1 && d1[1..] == d2 && d2[1..] == [];
    assert Render(d2) == RenderSegment(d2[0]) + Render([]);
    assert Render(d2) == (oi + y + ci) + [];
    assert Render(d1) == (oe + x + ce) + Render(d2);
    assert Render(doc) == (oi + [] + ci) + Render(d1);
    Regroup(oi, ci, oe, x, ce, y);
  }

  lemma Regroup(a: string, b: string, c: string, d: string, e: string, g: string)
    ensures (a + [] + b) + ((c + d + e) + ((a + g + b) + [])) == a + (b + c + d + e + a + g) + b + []
  {
  }

  /** The English version of that document is `x`, and `Strip` produces it. */
  lemma EmptySpanDocEnglish(x: string, y: string)
    requires Inert(x) && Inert(y)
    ensures Strip(Render(EmptySpanDoc(x, y)), En) == x
  {
    var doc := EmptySpanDoc(x, y);
    assert WellFormed(doc) by {
      NoAngleInert([]);
    }
    StripRender(doc, En);
    var tail := [Tagged(It, y)];
    assert tail[1..] == [];
    assert Version(tail, En) == [];
    assert doc[1..] == [Tagged(En, x)] + tail;
    assert Version(doc[1..], En) == x + [];
  }

  /** What the empty Italian span's opening marker is followed by, up to the
      document's last closing marker. */
  function SwallowedBody(x: string, y: string): string {
    Close(It) + Open(En) + x + Close(En) + Open(It) + y
  }

  /** After the first character of that text no Italian closing marker starts
      before the document's last one. */
  lemma SwallowedBodyNoClose(x: string, y: string)
    requires Inert(x) && Inert(y)
    ensures var t := SwallowedBody(x, y);
      forall j :: 1 <= j < |t| ==> !StartsAt(t + (Close(It) + []), j, Close(It))
  {
    var c := Close(It);
    var t := SwallowedBody(x, y);
    var w := c[1..] + Open(En) + x + Close(En) + Open(It) + y;
    SwallowedTailAvoids(x, y);
    assert t == [c[0]] + w by {
      assert [c[0]] + c[1..] == c;
    }
    NoStartAfterFirst(c[0], w, c + [], c);
    assert t + (c + []) == [c[0]] + w + (c + []);
  }

  /** A text avoiding `m` holds no occurrence of `m` after one character put in
      front of it. */
  lemma NoStartAfterFirst(a: char, w: string, rest: string, m: string)
    requires Avoids(w, m)
    ensures forall j :: 1 <= j < 1 + |w| ==> !StartsAt([a] + w + rest, j, m)
  {
    AvoidsNoStart(w, rest, m);
    forall j | 1 <= j < 1 + |w| ensures !StartsAt([a] + w + rest, j, m) {
      assert [a] + w + rest == [a] + (w + rest);
      StartsAtShift([a], w + rest, j - 1, m);
    }
  }

  /** Without its first character, that text holds no part of an Italian
      closing marker. */
  lemma SwallowedTailAvoids(x: string, y: string)
    requires Inert(x) && Inert(y)
    ensures Avoids(Close(It)[1..] + Open(En) + x + Close(En) + Open(It) + y, Close(It))
  {
    var c := Close(It);
    assert '<' !in c[1..] by {
      assert c[1..] == "/lang_it>";
    }
    NoAngleAvoids(c[1..], c);
    MarkersAvoid(Open(En), c);
    MarkersAvoid(Close(En), c);
    MarkersAvoid(Open(It), c);
    InertAvoids(x, It);
    InertAvoids(y, It);
    AvoidsConcat(c[1..], Open(En), c);
    AvoidsConcat(c[1..] + Open(En), x, c);
    AvoidsConcat(c[1..] + Open(En) + x, Close(En), c);
    AvoidsConcat(c[1..] + Open(En) + x + Close(En), Open(It), c);
    AvoidsConcat(c[1..] + Open(En) + x + Close(En) + Open(It), y, c);
  }

  /** An empty Italian span followed later by an Italian span: with the source's
      non-empty body, the first opening marker pairs with the last closing one
      and the English text between them is deleted as well, although the English
      version of this document is `x`. */
  lemma EmptySpanSwallowsText(x: string, y: string)
    requires Inert(x) && Inert(y)
    ensures StripAsWritten(Render(EmptySpanDoc(x, y)), En) == []
    ensures Strip(Render(EmptySpanDoc(x, y)), En) == x
  {
    EmptySpanDocEnglish(x, y);
    var t := SwallowedBody(x, y);
    calc {
      RemoveSpans(Render(EmptySpanDoc(x, y)), It, 1);
      == { EmptySpanDocRender(x, y); }
      RemoveSpans(Open(It) + t + Close(It) + [], It, 1);
      == { SwallowedBodyNoClose(x, y); RemoveSpansFirstClose(t, [], It, 1); }
      RemoveSpans([], It, 1);
    }
  }

  /** An empty span of `r` with no marker of `r` after it: the source's `.+?`
      finds no closing marker far enough on, so step 1 leaves the span in place
      (steps 2 and 3 then drop its markers). */
  lemma EmptySpanKept(r: Lang, rest: string, minBody: nat)
    requires minBody >= 1 && Avoids(rest, Open(r)) && Avoids(rest, Close(r))
    ensures RemoveSpans(Open(r) + Close(r) + rest, r, minBody) == Open(r) + Close(r) + rest
  {
    var o, c := Open(r), Close(r);
    var x := o + c + rest;
    assert '<' !in o[1..] && '<' !in c[1..] by {
      if r == En {
        assert o[1..] == "lang_en>" && c[1..] == "/lang_en>";
      } else {
        assert o[1..] == "lang_it>" && c[1..] == "/lang_it>";
      }
    }
    var y := c[1..] + rest;
    NoAngleAvoids(c[1..], c);
    AvoidsConcat(c[1..], rest, c);
    AvoidsNoStart(y, [], c);
    assert y + [] == y;
    assert x == (o + [c[0]]) + y;
    forall j | |o| + minBody <= j ensures !StartsAt(x, j, c) {
      StartsAtShift(o + [c[0]], y, j - |o| - 1, c);
    }
    assert FindFrom(x, c, |o| + minBody).None?;
    assert RemoveSpans(x, r, minBody) == [x[0]] + RemoveSpans(x[1..], r, minBody);
    var z := o[1..] + c + rest;
    assert x[1..] == z;
    NoAngleAvoids(o[1..], o);
    MarkersAvoid(c, o);
    AvoidsConcat(o[1..], c, o);
    AvoidsConcat(o[1..] + c, rest, o);
    AvoidsNoStart(z, [], o);
    assert z + [] == z;
    RemoveSpansPrefix(z, [], r, minBody);
    assert [x[0]] + z == x;
  }
}
