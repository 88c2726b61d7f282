/**
 Which texts the decimal parser accepts, and what it makes of them: an optional sign, digits, an
 optional point and more digits, with any white space around.
 */
module DecimalParsing {
  import opened Options
  import opened Digits
  import opened DecimalText
  import opened DecimalTheory

  /** A way to write a number; `pointed` says whether there is a point, which may also come first or last. */
  datatype Writing = Writing(
    left: string, sign: string, digits: string, pointed: bool, frac: string, right: string)

  predicate AllSpaces(s: string) {
    forall i :: 0 <= i < |s| ==> IsSpace(s[i])
  }

  predicate IsWriting(w: Writing) {
    && AllSpaces(w.left) && AllSpaces(w.right) && w.sign in {"", "+", "-"}
    && AllDigits(w.digits) && AllDigits(w.frac) && (!w.pointed ==> w.frac == "")
    && (w.digits != "" || w.frac != "")
  }

  function Tail(w: Writing): string { if w.pointed then "." + w.frac else "" }

  function Body(w: Writing): string { w.sign + (w.digits + Tail(w)) }

  function TextOf(w: Writing): string { w.left + (Body(w) + w.right) }

  function PartsOf(w: Writing): Parts {
    Parts(w.sign == "-", if w.digits == "" then "0" else w.digits, w.frac)
  }

  // ----- White space

  lemma {:induction false} TrimLeftSkips(spaces: string, s: string)
    requires AllSpaces(spaces) && s != "" && !IsSpace(s[0])
    ensures TrimLeft(spaces + s) == s
  {
    if spaces == "" {
      assert spaces + s == s;
    } else {
      assert (spaces + s)[1..] == spaces[1..] + s;
      TrimLeftSkips(spaces[1..], s);
    }
  }

  lemma {:induction false} TrimRightSkips(s: string, spaces: string)
    requires AllSpaces(spaces) && s != "" && !IsSpace(s[|s| - 1])
    ensures TrimRight(s + spaces) == s
  {
    if spaces == "" {
      assert s + spaces == s;
    } else {
      var n := |spaces| - 1;
      assert (s + spaces)[..|s + spaces| - 1] == s + spaces[..n];
      TrimRightSkips(s, spaces[..n]);
    }
  }

  lemma {:induction false} TrimLeftTakes(s: string) returns (spaces: string)
    ensures AllSpaces(spaces) && s == spaces + TrimLeft(s)
  {
    hide IsSpace;
    if s != "" && IsSpace(s[0]) {
      var rest := TrimLeftTakes(s[1..]);
      spaces := [s[0]] + rest;
      assert s == [s[0]] + s[1..];
      assert [s[0]] + (rest + TrimLeft(s[1..])) == spaces + TrimLeft(s[1..]);
    } else {
      spaces := "";
    }
  }

  lemma {:induction false} TrimRightTakes(s: string) returns (spaces: string)
    ensures AllSpaces(spaces) && s == TrimRight(s) + spaces
  {
    hide IsSpace;
    if s != "" && IsSpace(s[|s| - 1]) {
      var front := s[..|s| - 1];
      var rest := TrimRightTakes(front);
      spaces := rest + [s[|s| - 1]];
      assert s == front + [s[|s| - 1]];
    } else {
      spaces := "";
    }
  }

  lemma BodyEnds(w: Writing)
    requires IsWriting(w)
    ensures var body := Body(w); body != "" && !IsSpace(body[0]) && !IsSpace(body[|body| - 1])
  {
    var body := Body(w);
    assert body[0] in {'+', '-', '.'} || IsDigit(body[0]);
    assert body[|body| - 1] == '.' || IsDigit(body[|body| - 1]);
  }

  lemma TrimFindsBody(w: Writing)
    requires IsWriting(w)
    ensures Trim(TextOf(w)) == Body(w)
  {
    hide Body, TrimLeft, TrimRight;
    BodyEnds(w);
    TrimLeftSkips(w.left, Body(w) + w.right);
    TrimRightSkips(Body(w), w.right);
  }

  // ----- Accepted texts

  lemma BodyOpens(w: Writing)
    requires IsWriting(w)
    ensures var t, u := Body(w), w.digits + Tail(w);
      && t != "" && (t[0] in {'+', '-'} <==> w.sign != "") && (w.sign != "" ==> w.sign == [t[0]])
      && (if t[0] in {'+', '-'} then t[1..] else t) == u
  {
    hide IsSpace;
    var t, u := Body(w), w.digits + Tail(w);
    assert w.sign == "" ==> t == u;
    assert w.sign != "" ==> t[1..] == u;
  }

  lemma DigitsLead(w: Writing)
    requires IsWriting(w)
    ensures var u, rest := w.digits + Tail(w), Tail(w);
      && LeadingDigits(u) == |w.digits| && u[..|w.digits|] == w.digits && u[|w.digits|..] == rest
      && (rest == "" <==> !w.pointed) && (w.pointed ==> rest[0] == '.' && rest[1..] == w.frac)
  {
    hide LeadingDigits, IsSpace;
    AllLeading(w.digits, Tail(w));
  }

  /** Every writing is accepted, with its sign, its digits (or a zero before a leading point) and its fraction. */
  lemma WritingsAreAccepted(w: Writing)
    requires IsWriting(w)
    ensures SplitDecimal(Some(TextOf(w))) == Some(PartsOf(w))
  {
    hide Trim, LeadingDigits, TextOf, IsSpace, Body, Tail;
    TrimFindsBody(w);
    BodyOpens(w);
    DigitsLead(w);
  }

  /** How an accepted text is taken apart once its white space is gone. */
  function Opened(t: string, right: string, left: string): Writing {
    var signed := t != "" && t[0] in {'+', '-'};
    var u := if signed then t[1..] else t;
    var rest := u[LeadingDigits(u)..];
    Writing(left, if signed then [t[0]] else "", u[..LeadingDigits(u)], rest != "",
            if rest == "" then "" else rest[1..], right)
  }

  lemma OpenedShape(t: string, left: string, right: string)
    ensures var w, signed := Opened(t, right, left), t != "" && t[0] in {'+', '-'};
      var u := if signed then t[1..] else t;
      && w.left == left && w.right == right && w.sign in {"", "+", "-"} && (w.sign == "-" <==> signed && t[0] == '-')
      && w.digits == u[..LeadingDigits(u)] && AllDigits(w.digits)
      && (w.pointed <==> u[LeadingDigits(u)..] != "")
      && w.frac == (if w.pointed then u[LeadingDigits(u)..][1..] else "")
      && (u[LeadingDigits(u)..] == Tail(w) ==> Body(w) == t)
  {
    hide LeadingDigits;
    var u := if t != "" && t[0] in {'+', '-'} then t[1..] else t;
    assert u == u[..LeadingDigits(u)] + u[LeadingDigits(u)..];
  }

  lemma OpenedIsWriting(text: string, left: string, right: string)
    requires SplitDecimal(Some(text)).Some? && AllSpaces(left) && AllSpaces(right)
    ensures var w := Opened(Trim(text), right, left);
      IsWriting(w) && PartsOf(w) == SplitDecimal(Some(text)).value && Body(w) == Trim(text)
  {
    hide Trim, LeadingDigits, IsSpace, Opened, Body;
    OpenedShape(Trim(text), left, right);
  }

  /** Nothing else is accepted. */
  lemma AcceptedAreWritings(text: string) returns (w: Writing)
    requires SplitDecimal(Some(text)).Some?
    ensures IsWriting(w) && TextOf(w) == text && PartsOf(w) == SplitDecimal(Some(text)).value
  {
    hide TrimLeft, TrimRight, SplitDecimal, IsWriting, PartsOf, Body, AllSpaces;
    var left := TrimLeftTakes(text);
    var right := TrimRightTakes(TrimLeft(text));
    w := Opened(Trim(text), right, left);
    OpenedIsWriting(text, left, right);
  }

  /**
   The parser accepts a text as given parts exactly when the text writes them: white space, an optional
   sign, digits, an optional point with digits, white space, and at least one digit in all.
   */
  lemma ParsesExactlyWritings(text: string, p: Parts)
    ensures SplitDecimal(Some(text)) == Some(p)
      <==> exists w: Writing :: IsWriting(w) && TextOf(w) == text && PartsOf(w) == p
  {
    hide SplitDecimal, IsWriting, TextOf, PartsOf;
    if SplitDecimal(Some(text)).Some? {
      var w := AcceptedAreWritings(text);
    }
    forall w: Writing | IsWriting(w) && TextOf(w) == text
      ensures SplitDecimal(Some(text)) == Some(PartsOf(w))
    {
      WritingsAreAccepted(w);
    }
  }

  /** White space is JavaScript's: the code points that `trim` takes off. */
  lemma SpacesAre(c: char)
    ensures var code := c as int;
      IsSpace(c) <==> 9 <= code <= 13 || code in {32, 160, 5760, 8232, 8233, 8239, 8287, 12288, 65279}
                      || 8192 <= code <= 8202
  {
  }
}
