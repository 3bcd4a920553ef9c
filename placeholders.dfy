/**
 * Placeholder protection around a translation call.
 *
 * Before a resource text goes to a provider, every positional format
 * placeholder `%<digits>$<letter>` is replaced by an XML-like marker
 * `<letter digits/>` that providers leave alone; afterwards every marker is
 * turned back into a placeholder. Both are one regex `replace`, scanning left
 * to right over non-overlapping, greedy matches. The two rewrites differ only
 * in which syntax they recognise and which they produce, so they are modelled
 * as one rewrite over a `Syntax` value.
 */
module Placeholders {
  import opened Wrappers
  import opened Text

  /** `Format` is `%12$s` (regex `%(\d+)\$([a-z])`), `Masked` is `<s12/>`
      (regex `<([a-z])(\d+)/>`). */
  datatype Syntax = Format | Masked

  /** The two groups a match captures: the conversion letter and the argument
      index, as written. */
  datatype Placeholder = Placeholder(format: char, number: string)

  predicate AllDigits(s: string) {
    forall i | 0 <= i < |s| :: IsDigit(s[i])
  }

  /** What both regexes can capture: one ASCII lower-case letter and at least
      one ASCII digit (`\d` in a Java regex is `[0-9]`). */
  predicate ValidPlaceholder(p: Placeholder) {
    IsLowerLetter(p.format) && |p.number| >= 1 && AllDigits(p.number)
  }

  /** The text of a placeholder in the given syntax. */
  function Render(p: Placeholder, syn: Syntax): string {
    match syn
    case Format => "%" + p.number + "$" + [p.format]
    case Masked => "<" + [p.format] + p.number + "/>"
  }

  /** The character every match of the syntax starts with; it occurs nowhere
      else in either syntax. */
  function Opener(syn: Syntax): char {
    match syn
    case Format => '%'
    case Masked => '<'
  }

  lemma RenderShape(p: Placeholder, syn: Syntax, other: Syntax)
    requires ValidPlaceholder(p) && other != syn
    ensures |Render(p, syn)| == |p.number| + (if syn == Format then 3 else 4)
    ensures Render(p, syn)[0] == Opener(syn)
    ensures Opener(syn) !in Render(p, syn)[1..]
    ensures Opener(other) !in Render(p, syn)
  {
    var r := Render(p, syn);
    forall i | 0 <= i < |r|
      ensures r[i] == Opener(syn) || r[i] == '$' || r[i] == '/' || r[i] == '>'
           || IsDigit(r[i]) || IsLowerLetter(r[i])
      ensures i > 0 ==> r[i] != '%' && r[i] != '<'
    {
      if syn == Format {
        if 0 < i <= |p.number| {
          assert r[i] == p.number[i - 1];
        }
      } else {
        if 1 < i < |p.number| + 2 {
          assert r[i] == p.number[i - 2];
        }
      }
    }
  }

  /** Length of the run of digits that `s` starts with: greedy `\d+`. */
  function DigitRun(s: string): (k: nat)
    ensures k <= |s|
    ensures AllDigits(s[..k])
    ensures k < |s| ==> !IsDigit(s[k])
  {
    if s == [] || !IsDigit(s[0]) then 0 else 1 + DigitRun(s[1..])
  }

  lemma {:induction false} DigitRunOf(d: string, rest: string)
    requires AllDigits(d)
    requires rest == [] || !IsDigit(rest[0])
    ensures DigitRun(d + rest) == |d|
  {
    if d != [] {
      assert (d + rest)[1..] == d[1..] + rest;
      DigitRunOf(d[1..], rest);
    }
  }

  /** The match of the syntax's regex that starts at the first character of
      `s`, if there is one. */
  function TokenAt(s: string, syn: Syntax): (r: Option<Placeholder>)
    ensures r.Some? ==> ValidPlaceholder(r.value) && Render(r.value, syn) <= s
    ensures r.Some? ==> s[0] == Opener(syn)
  {
    match syn
    case Format =>
      if |s| >= 1 && s[0] == '%' then
        var k := DigitRun(s[1..]);
        if 1 <= k && k + 2 < |s| && s[k + 1] == '$' && IsLowerLetter(s[k + 2]) then
          var p := Placeholder(s[k + 2], s[1..k + 1]);
          assert s[1..][..k] == s[1..k + 1];
          assert Render(p, syn) == s[..k + 3];
          Some(p)
        else None
      else None
    case Masked =>
      if |s| >= 2 && s[0] == '<' && IsLowerLetter(s[1]) then
        var k := DigitRun(s[2..]);
        if 1 <= k && k + 3 < |s| && s[k + 2] == '/' && s[k + 3] == '>' then
          var p := Placeholder(s[1], s[2..k + 2]);
          assert s[2..][..k] == s[2..k + 2];
          assert Render(p, syn) == s[..k + 4];
          Some(p)
        else None
      else None
  }

  /** A match is found exactly where the text starts with a placeholder in
      that syntax: the greedy digit run cannot stop early or overrun. */
  lemma TokenAtComplete(s: string, syn: Syntax, p: Placeholder)
    requires ValidPlaceholder(p) && Render(p, syn) <= s
    ensures TokenAt(s, syn) == Some(p)
  {
    var n := |p.number|;
    match syn
    case Format =>
      assert s[1..] == p.number + s[n + 1..];
      DigitRunOf(p.number, s[n + 1..]);
      assert s[1..n + 1] == p.number;
    case Masked =>
      assert s[2..] == p.number + s[n + 2..];
      DigitRunOf(p.number, s[n + 2..]);
      assert s[2..n + 2] == p.number;
  }

  /** `input.replace(regex) { ... }`: every match of `from` becomes the same
      placeholder written in `to`; all other characters are copied. */
  function Rewrite(s: string, from: Syntax, to: Syntax): (r: string)
    decreases |s|
  {
    if s == [] then []
    else match TokenAt(s, from)
      case Some(p) => Render(p, to) + Rewrite(s[|Render(p, from)|..], from, to)
      case None => [s[0]] + Rewrite(s[1..], from, to)
  }

  /** `maskPlaceholders`. */
  function Mask(s: string): string {
    Rewrite(s, Format, Masked)
  }

  /** `unmaskPlaceholders`. */
  function Unmask(s: string): string {
    Rewrite(s, Masked, Format)
  }

  /** No substring of `s` matches the syntax's regex. */
  predicate NoToken(s: string, syn: Syntax) {
    forall i | 0 <= i < |s| :: TokenAt(s[i..], syn).None?
  }

  lemma NoTokenSuffix(s: string, n: nat, syn: Syntax)
    requires NoToken(s, syn) && n <= |s|
    ensures NoToken(s[n..], syn)
  {
    forall i | 0 <= i < |s[n..]|
      ensures TokenAt(s[n..][i..], syn).None?
    {
      assert s[n..][i..] == s[n + i..];
    }
  }

  lemma NoTokenAppend(x: string, y: string, syn: Syntax)
    requires Opener(syn) !in x && NoToken(y, syn)
    ensures NoToken(x + y, syn)
  {
    forall i | 0 <= i < |x + y|
      ensures TokenAt((x + y)[i..], syn).None?
    {
      if i < |x| {
        assert (x + y)[i..][0] == x[i];
      } else {
        assert (x + y)[i..] == y[i - |x|..];
      }
    }
  }

  lemma NoTokenCons(c: char, t: string, syn: Syntax)
    requires TokenAt([c] + t, syn).None? && NoToken(t, syn)
    ensures NoToken([c] + t, syn)
  {
    forall i | 0 <= i < |[c] + t|
      ensures TokenAt(([c] + t)[i..], syn).None?
    {
      if i > 0 {
        assert ([c] + t)[i..] == t[i - 1..];
      }
    }
  }

  /** Where the input starts with a match, the output starts with the
      opener of the other syntax. */
  lemma RewriteOpensWith(u: string, from: Syntax, to: Syntax)
    requires from != to && u != [] && TokenAt(u, from).Some?
    ensures Rewrite(u, from, to) != [] && Rewrite(u, from, to)[0] == Opener(to)
  {
    RenderShape(TokenAt(u, from).value, to, from);
  }

  /** A prefix of the output that contains no character opening a `to`
      token was copied unchanged from the input. */
  lemma {:induction false} PlainPrefix(u: string, w: string, from: Syntax, to: Syntax)
    requires from != to
    requires w <= Rewrite(u, from, to) && Opener(to) !in w
    ensures w <= u
    decreases |u|
  {
    if w != [] && u != [] {
      match TokenAt(u, from)
      case Some(p) =>
        RewriteOpensWith(u, from, to);
        assert false;
      case None =>
        var rest := Rewrite(u[1..], from, to);
        assert w[1..] <= rest;
        PlainPrefix(u[1..], w[1..], from, to);
    }
  }

  /** Rewriting text that starts with a match. */
  lemma RewriteToken(p: Placeholder, rest: string, from: Syntax, to: Syntax)
    requires ValidPlaceholder(p)
    ensures Rewrite(Render(p, from) + rest, from, to) == Render(p, to) + Rewrite(rest, from, to)
  {
    var t := Render(p, from);
    TokenAtComplete(t + rest, from, p);
    assert (t + rest)[|t|..] == rest;
  }

  /** Rewriting text that starts with a character that opens no match. */
  lemma RewritePlain(c: char, rest: string, from: Syntax, to: Syntax)
    requires TokenAt([c] + rest, from).None?
    ensures Rewrite([c] + rest, from, to) == [c] + Rewrite(rest, from, to)
  {
    assert ([c] + rest)[1..] == rest;
  }

  /** After a placeholder's opener, the rendering holds neither opener. */
  lemma RenderTail(q: Placeholder, syn: Syntax, to: Syntax)
    requires ValidPlaceholder(q)
    ensures |Render(q, syn)| >= 1 && Opener(to) !in Render(q, syn)[1..]
  {
    var other := if syn == Format then Masked else Format;
    RenderShape(q, syn, other);
  }

  /** A placeholder that the output shows right at a copied character was
      already in the input at that position. */
  lemma CopiedTokenWasThere(s: string, rest: string, q: Placeholder, from: Syntax, to: Syntax, syn: Syntax)
    requires from != to && s != [] && ValidPlaceholder(q)
    requires rest == Rewrite(s[1..], from, to)
    requires Render(q, syn) <= [s[0]] + rest
    ensures Render(q, syn) <= s
  {
    var r := Render(q, syn);
    RenderTail(q, syn, to);
    assert ([s[0]] + rest)[1..] == rest;
    assert r[1..] <= rest;
    PlainPrefix(s[1..], r[1..], from, to);
    assert r == [s[0]] + r[1..];
    assert s == [s[0]] + s[1..];
  }

  /** Where the input has no `from` match, the output has no `syn` match at
      that position either, as long as the input itself has none there. */
  lemma CopiedCharOpensNothing(s: string, from: Syntax, to: Syntax, syn: Syntax)
    requires from != to
    requires s != [] && TokenAt(s, from).None? && TokenAt(s, syn).None?
    ensures TokenAt([s[0]] + Rewrite(s[1..], from, to), syn).None?
  {
    var rest := Rewrite(s[1..], from, to);
    var out := [s[0]] + rest;
    if TokenAt(out, syn).Some? {
      var q := TokenAt(out, syn).value;
      CopiedTokenWasThere(s, rest, q, from, to, syn);
      TokenAtComplete(s, syn, q);
      assert false;
    }
  }

  /** Rewriting into `to` and back restores the text, provided the text did
      not already contain something in the `to` syntax. */
  lemma {:induction false} RewriteRoundTrip(s: string, a: Syntax, b: Syntax)
    requires a != b && NoToken(s, b)
    ensures Rewrite(Rewrite(s, a, b), b, a) == s
    decreases |s|
  {
    if s != [] {
      var n := if TokenAt(s, a).Some? then |Render(TokenAt(s, a).value, a)| else 1;
      NoTokenSuffix(s, n, b);
      RewriteRoundTrip(s[n..], a, b);
      if TokenAt(s, a).Some? {
        RoundTripToken(s, a, b);
      } else {
        RoundTripPlain(s, a, b);
      }
    }
  }

  /** The round trip over a leading match, given the round trip of the rest. */
  lemma RoundTripToken(s: string, a: Syntax, b: Syntax)
    requires a != b && TokenAt(s, a).Some?
    requires var n := |Render(TokenAt(s, a).value, a)|; Rewrite(Rewrite(s[n..], a, b), b, a) == s[n..]
    ensures Rewrite(Rewrite(s, a, b), b, a) == s
  {
    var p := TokenAt(s, a).value;
    var n := |Render(p, a)|;
    assert s == Render(p, a) + s[n..];
    RewriteToken(p, s[n..], a, b);
    RewriteToken(p, Rewrite(s[n..], a, b), b, a);
  }

  /** The round trip over a leading plain character, given the round trip
      of the rest. */
  lemma RoundTripPlain(s: string, a: Syntax, b: Syntax)
    requires a != b && s != [] && NoToken(s, b) && TokenAt(s, a).None?
    requires Rewrite(Rewrite(s[1..], a, b), b, a) == s[1..]
    ensures Rewrite(Rewrite(s, a, b), b, a) == s
  {
    assert s[0..] == s;
    assert TokenAt(s[0..], b).None?;
    assert s == [s[0]] + s[1..];
    RewritePlain(s[0], s[1..], a, b);
    CopiedCharOpensNothing(s, a, b, b);
    RewritePlain(s[0], Rewrite(s[1..], a, b), b, a);
  }

  /** The output of a rewrite contains no match of the syntax it rewrote. */
  lemma {:induction false} RewriteLeavesNoSource(s: string, a: Syntax, b: Syntax)
    requires a != b
    ensures NoToken(Rewrite(s, a, b), a)
    decreases |s|
  {
    if s != [] {
      match TokenAt(s, a)
      case Some(p) =>
        var n := |Render(p, a)|;
        RenderShape(p, b, a);
        RewriteLeavesNoSource(s[n..], a, b);
        NoTokenAppend(Render(p, b), Rewrite(s[n..], a, b), a);
      case None =>
        CopiedCharOpensNothing(s, a, b, a);
        RewriteLeavesNoSource(s[1..], a, b);
        NoTokenCons(s[0], Rewrite(s[1..], a, b), a);
    }
  }

  /** Text without a match is left exactly as it was. */
  lemma {:induction false} RewriteWithoutTokens(s: string, a: Syntax, b: Syntax)
    requires NoToken(s, a)
    ensures Rewrite(s, a, b) == s
    decreases |s|
  {
    if s != [] {
      assert s[0..] == s;
      NoTokenSuffix(s, 1, a);
      RewriteWithoutTokens(s[1..], a, b);
    }
  }

  /** Unmasking a masked text gives back the original, whenever the original
      held nothing that looks like a marker `<x9/>`. */
  lemma MaskRoundTrip(s: string)
    requires NoToken(s, Masked)
    ensures Unmask(Mask(s)) == s
  {
    RewriteRoundTrip(s, Format, Masked);
  }

  /** Masking an unmasked text gives back the original, whenever the original
      held no placeholder `%9$x`. */
  lemma UnmaskRoundTrip(s: string)
    requires NoToken(s, Format)
    ensures Mask(Unmask(s)) == s
  {
    RewriteRoundTrip(s, Masked, Format);
  }

  /** What goes to the provider has no placeholder left in it. */
  lemma MaskHidesPlaceholders(s: string)
    ensures NoToken(Mask(s), Format)
  {
    RewriteLeavesNoSource(s, Format, Masked);
  }

  /** What comes back from unmasking has no marker left in it. */
  lemma UnmaskRemovesMarkers(s: string)
    ensures NoToken(Unmask(s), Masked)
  {
    RewriteLeavesNoSource(s, Masked, Format);
  }

  /** Text without placeholders is sent as it is. */
  lemma MaskWithoutPlaceholders(s: string)
    requires NoToken(s, Format)
    ensures Mask(s) == s
  {
    RewriteWithoutTokens(s, Format, Masked);
  }

  /** Text without markers comes back as it is. */
  lemma UnmaskWithoutMarkers(s: string)
    requires NoToken(s, Masked)
    ensures Unmask(s) == s
  {
    RewriteWithoutTokens(s, Masked, Format);
  }

  /** Masking a single placeholder. */
  lemma MaskOnePlaceholder()
    ensures Mask("%1$s") == "<s1/>"
  {
    var p := Placeholder('s', "1");
    TokenAtComplete("%1$s", Format, p);
    assert "%1$s"[4..] == [];
  }
}
