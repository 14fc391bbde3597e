/** String primitives shared by the migration scripts: substring tests, Ruby's
    `Integer#to_s`, SQL single-quote doubling and Ruby's end-of-line anchor `$`. */
module Text {

  datatype Option<T> = None | Some(value: T)

  /** `p` occurs in `s` starting at index `i`. */
  predicate StartsAt(s: string, i: int, p: string) {
    0 <= i && i + |p| <= |s| && s[i..i + |p|] == p
  }

  /** Concatenation regrouped; called where the solver would search for it. */
  lemma AppendAssoc<T>(x: seq<T>, y: seq<T>, z: seq<T>)
    ensures x + (y + z) == (x + y) + z
  {
  }

  lemma StartsAtShift(a: string, b: string, j: int, p: string)
    requires 0 <= j
    ensures StartsAt(a + b, |a| + j, p) == StartsAt(b, j, p)
  {
    if StartsAt(b, j, p) {
      assert (a + b)[|a| + j..|a| + j + |p|] == b[j..j + |p|];
    }
    if StartsAt(a + b, |a| + j, p) {
      assert (a + b)[|a| + j..|a| + j + |p|] == b[j..j + |p|];
    }
  }

  /** The first index at or after `from` where `pat` occurs in `s`. */
  function FindFrom(s: string, pat: string, from: nat): (r: Option<nat>)
    decreases |s| - from
    ensures r.Some? ==>
      from <= r.value && StartsAt(s, r.value, pat) &&
      forall j :: from <= j < r.value ==> !StartsAt(s, j, pat)
    ensures r.None? ==> forall j :: from <= j ==> !StartsAt(s, j, pat)
  {
    if from + |pat| > |s| then None
    else if StartsAt(s, from, pat) then Some(from)
    else FindFrom(s, pat, from + 1)
  }

  lemma FindFromFirst(s: string, p: string, from: nat, k: nat)
    requires from <= k && StartsAt(s, k, p)
    requires forall j :: from <= j < k ==> !StartsAt(s, j, p)
    ensures FindFrom(s, p, from) == Some(k)
  {
  }

  /** `head`, a rendered integer, a separator, a value and a closing text: the
      separator is first found right after the integer and the value is what
      lies between the separator and the closing text. */
  lemma FramedParts(head: string, n: int, mid: string, x: string, end: string)
    requires |mid| > 0 && !IsDigit(mid[0]) && mid[0] != '-'
    ensures var v := head + Show(n) + mid + x + end;
      var body := v[|head|..];
      StartsAt(v, 0, head) && FindFrom(body, mid, 0) == Some(|Show(n)|) &&
      body[..|Show(n)|] == Show(n) && body[|Show(n)| + |mid|..] == x + end &&
      EndsWith(x + end, end) && (x + end)[..|x + end| - |end|] == x
  {
    var w := Show(n);
    var v := head + w + mid + x + end;
    var body := w + mid + (x + end);
    assert v[..|head|] == head && v[|head|..] == body by {
      AppendAssoc(head + w + mid, x, end);
      AppendAssoc(head + w, mid, x + end);
      AppendAssoc(head, w, mid + (x + end));
      AppendAssoc(w, mid, x + end);
      assert v == head + body;
    }
    assert FindFrom(body, mid, 0) == Some(|w|) && body[..|w|] == w &&
      body[|w| + |mid|..] == x + end by {
      FindAfterShow(n, mid, x + end);
    }
    assert (x + end)[|x|..] == end && (x + end)[..|x|] == x;
  }

  lemma StartsAtHead(s: string, i: int, p: string)
    ensures StartsAt(s, i, p) && |p| > 0 ==> s[i] == p[0]
  {
    if StartsAt(s, i, p) && |p| > 0 {
      assert s[i..i + |p|][0] == p[0];
    }
  }

  /** A separator that cannot occur inside a rendered integer is first found right
      after it. */
  lemma FindAfterShow(n: int, sep: string, rest: string)
    requires |sep| > 0 && !IsDigit(sep[0]) && sep[0] != '-'
    ensures FindFrom(Show(n) + sep + rest, sep, 0) == Some(|Show(n)|)
    ensures (Show(n) + sep + rest)[..|Show(n)|] == Show(n)
    ensures (Show(n) + sep + rest)[|Show(n)| + |sep|..] == rest
  {
    var s, w := Show(n) + sep + rest, Show(n);
    forall j | 0 <= j < |w| ensures !StartsAt(s, j, sep) {
      assert s[j] == w[j];
      StartsAtHead(s, j, sep);
    }
    assert s[|w|..|w| + |sep|] == sep;
    FindFromFirst(s, sep, 0, |w|);
  }

  // ---------------------------------------------------------------------------
  // Decimal rendering (Ruby Integer#to_s) and a strict reader as its partner.

  predicate IsDigit(c: char) { '0' <= c <= '9' }

  predicate AllDigits(s: string) { forall i :: 0 <= i < |s| ==> IsDigit(s[i]) }

  function DigitChar(d: int): (c: char)
    requires 0 <= d < 10
    ensures IsDigit(c) && c as int - '0' as int == d
  {
    ('0' as int + d) as char
  }

  /** Decimal digits of a natural number, most significant first, no leading zero. */
  function ShowNat(n: nat): (r: string)
    ensures |r| >= 1 && AllDigits(r)
    ensures n >= 10 <==> |r| >= 2
  {
    if n < 10 then [DigitChar(n)] else ShowNat(n / 10) + [DigitChar(n % 10)]
  }

  /** Ruby's `Integer#to_s`: a minus sign for negative numbers, then the digits. */
  function Show(n: int): (r: string)
    ensures |r| >= 1
    ensures forall i :: 0 <= i < |r| ==> IsDigit(r[i]) || (i == 0 && r[i] == '-')
  {
    if n < 0 then "-" + ShowNat(-n) else ShowNat(n)
  }

  function DigitsValue(s: string): nat
    requires AllDigits(s)
  {
    if s == [] then 0 else DigitsValue(s[..|s| - 1]) * 10 + (s[|s| - 1] as int - '0' as int)
  }

  /** Reads an optional minus sign followed by at least one digit and nothing else. */
  function ReadInt(s: string): Option<int> {
    if |s| >= 2 && s[0] == '-' && AllDigits(s[1..]) then Some(0 - DigitsValue(s[1..]) as int)
    else if |s| >= 1 && AllDigits(s) then Some(DigitsValue(s) as int)
    else None
  }

  lemma {:induction false} DigitsValueShowNat(n: nat)
    ensures DigitsValue(ShowNat(n)) == n
  {
    if n >= 10 {
      var r := ShowNat(n);
      assert r[..|r| - 1] == ShowNat(n / 10);
      DigitsValueShowNat(n / 10);
    }
  }

  /** Rendering an integer and reading it back gives the integer. */
  lemma ReadShow(n: int)
    ensures ReadInt(Show(n)) == Some(n)
  {
    if n < 0 {
      assert Show(n)[1..] == ShowNat(-n);
      DigitsValueShowNat(-n);
    } else {
      DigitsValueShowNat(n);
    }
  }

  /** Distinct integers render to distinct strings. */
  lemma ShowInjective(m: int, n: int)
    ensures Show(m) == Show(n) ==> m == n
  {
    ReadShow(m);
    ReadShow(n);
  }

  // ---------------------------------------------------------------------------
  // SQL quoting: Ruby's `gsub(/'/, "''")`.

  function Escape(s: string): (r: string)
    ensures |r| >= |s|
  {
    if s == [] then [] else (if s[0] == '\'' then "''" else [s[0]]) + Escape(s[1..])
  }

  /** Reads a single-quoted SQL literal whose opening quote has already been read:
      `''` stands for one quote and a lone quote closes the literal. Gives the value
      and the text after the closing quote, or nothing when the literal is not closed. */
  function ReadLiteral(s: string): Option<(string, string)>
    decreases |s|
  {
    if s == [] then None
    else if s[0] == '\'' then
      if |s| >= 2 && s[1] == '\'' then
        match ReadLiteral(s[2..])
        case Some(vr) => Some(("'" + vr.0, vr.1))
        case None => None
      else Some(([], s[1..]))
    else
      match ReadLiteral(s[1..])
      case Some(vr) => Some(([s[0]] + vr.0, vr.1))
      case None => None
  }

  /** Quote doubling is undone by reading the literal back: an escaped value
      followed by a closing quote reads as exactly that value, and the text after
      the quote is left over, so no value can end its literal early. */
  lemma {:induction false} ReadLiteralEscape(v: string, rest: string)
    requires rest == [] || rest[0] != '\''
    ensures ReadLiteral(Escape(v) + "'" + rest) == Some((v, rest))
  {
    if v == [] {
      assert Escape(v) + "'" + rest == "'" + rest;
    } else {
      var tail := Escape(v[1..]) + "'" + rest;
      assert ReadLiteral(tail) == Some((v[1..], rest)) by {
        ReadLiteralEscape(v[1..], rest);
      }
      var s := Escape(v) + "'" + rest;
      if v[0] == '\'' {
        assert s == "''" + tail;
        assert s[0] == '\'' && s[1] == '\'' && s[2..] == tail;
        assert "'" + v[1..] == v;
      } else {
        assert s == [v[0]] + tail;
        assert s[0] == v[0] && s[1..] == tail;
        assert [v[0]] + v[1..] == v;
      }
    }
  }

  lemma {:induction false} EscapeAppend(a: string, b: string)
    ensures Escape(a + b) == Escape(a) + Escape(b)
  {
    if a != [] {
      assert (a + b)[1..] == a[1..] + b;
      EscapeAppend(a[1..], b);
    } else {
      assert a + b == b;
    }
  }

  /** Text without a quote is left as it is. */
  lemma {:induction false} EscapeQuoteFree(s: string)
    requires '\'' !in s
    ensures Escape(s) == s
  {
    if s != [] {
      assert s[0] in s;
      assert forall c :: c in s[1..] ==> c in s;
      EscapeQuoteFree(s[1..]);
      assert [s[0]] + s[1..] == s;
    }
  }

  // ---------------------------------------------------------------------------
  // Ruby's `$` anchor: end of the string or just before a newline.

  predicate EolAt(s: string, i: int) {
    i == |s| || (0 <= i < |s| && s[i] == '\n')
  }

  predicate EndsWith(s: string, p: string) {
    |p| <= |s| && s[|s| - |p|..] == p
  }
}
