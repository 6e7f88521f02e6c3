/** The page's HTML escaper `escapeHtml`: five global replacements applied
    in a fixed order, `&` first. The module states it two ways, as the chain
    of replacements the page performs and as a one-pass character map, and
    proves them equal. It also gives a decoder for the five character
    references and proves the round trip and the "no markup left" properties
    on the chain itself. */
module Escape {
  import opened Wrappers

  /** The five characters the escaper rewrites. */
  predicate IsMarkupChar(c: char) {
    c == '&' || c == '<' || c == '>' || c == '"' || c == '\''
  }

  /** The four characters that must never appear in escaped output
      (an `&` may, as the start of a reference). */
  predicate IsRawMarkup(c: char) {
    c == '<' || c == '>' || c == '"' || c == '\''
  }

  const AmpRef: string := "&amp;"
  const LtRef: string := "&lt;"
  const GtRef: string := "&gt;"
  const QuotRef: string := "&quot;"
  const AposRef: string := "&#039;"

  /** The character reference the escaper writes for `c`, or `c` itself. */
  function EscapeChar(c: char): (r: string)
    ensures 1 <= |r|
    ensures IsMarkupChar(c) <==> r[0] == '&'
    ensures !IsMarkupChar(c) ==> r == [c]
    ensures forall i | 0 <= i < |r| :: !IsRawMarkup(r[i])
    ensures forall i | 1 <= i < |r| :: r[i] != '&'
  {
    if c == '&' then AmpRef
    else if c == '<' then LtRef
    else if c == '>' then GtRef
    else if c == '"' then QuotRef
    else if c == '\'' then AposRef
    else [c]
  }

  /** One global `String.prototype.replace` with a literal replacement:
      every occurrence of `c` in `s` becomes `rep`. None of the replacement
      strings used here contains `$`, so no replacement pattern applies. */
  function ReplaceAll(s: string, c: char, rep: string): (r: string)
    decreases |s|
  {
    if |s| == 0 then ""
    else (if s[0] == c then rep else [s[0]]) + ReplaceAll(s[1..], c, rep)
  }

  /** The page's replacements as (character, reference) steps, in the order
      it applies them: `&` first, then `<`, `>`, `"` and `'`. */
  const Replacements: seq<(char, string)> :=
    [('&', AmpRef), ('<', LtRef), ('>', GtRef), ('"', QuotRef), ('\'', AposRef)]

  /** Applies each step's global replacement to the result of the previous
      one. */
  function ApplyAll(s: string, steps: seq<(char, string)>): string
    decreases |steps|
  {
    if |steps| == 0 then s
    else ApplyAll(ReplaceAll(s, steps[0].0, steps[0].1), steps[1..])
  }

  /** `escapeHtml` as the page writes it: the chain of five global
      replacements. */
  function EscapeHtml(s: string): string {
    ApplyAll(s, Replacements)
  }

  /** The same escaper written as one pass over the characters. */
  function EscapeCharwise(s: string): (r: string)
    ensures |s| <= |r|
    ensures forall i | 0 <= i < |r| :: !IsRawMarkup(r[i])
    decreases |s|
  {
    if |s| == 0 then ""
    else EscapeChar(s[0]) + EscapeCharwise(s[1..])
  }

  // ---------------------------------------------------------------------
  // The chain of replacements equals the one-pass map.

  lemma {:induction false} ReplaceAllConcat(a: string, b: string, c: char, rep: string)
    ensures ReplaceAll(a + b, c, rep) == ReplaceAll(a, c, rep) + ReplaceAll(b, c, rep)
    decreases |a|
  {
    if |a| == 0 {
      assert a + b == b;
    } else {
      assert (a + b)[1..] == a[1..] + b;
      ReplaceAllConcat(a[1..], b, c, rep);
    }
  }

  lemma {:induction false} ReplaceAllAbsent(s: string, c: char, rep: string)
    requires forall i | 0 <= i < |s| :: s[i] != c
    ensures ReplaceAll(s, c, rep) == s
    decreases |s|
  {
    if |s| != 0 {
      ReplaceAllAbsent(s[1..], c, rep);
      assert [s[0]] + s[1..] == s;
    }
  }

  lemma ReplaceAllSingle(c: char, d: char, rep: string)
    ensures ReplaceAll([c], d, rep) == (if c == d then rep else [c])
  {
    assert [c][1..] == "";
  }

  lemma {:induction false} ApplyAllConcat(a: string, b: string, steps: seq<(char, string)>)
    ensures ApplyAll(a + b, steps) == ApplyAll(a, steps) + ApplyAll(b, steps)
    decreases |steps|
  {
    if |steps| != 0 {
      var (c, rep) := steps[0];
      ReplaceAllConcat(a, b, c, rep);
      ApplyAllConcat(ReplaceAll(a, c, rep), ReplaceAll(b, c, rep), steps[1..]);
    }
  }

  /** Steps whose characters do not occur in `t` leave it unchanged. */
  lemma {:induction false} ApplyAllAbsent(t: string, steps: seq<(char, string)>)
    requires forall j, i | 0 <= j < |steps| && 0 <= i < |t| :: t[i] != steps[j].0
    ensures ApplyAll(t, steps) == t
    decreases |steps|
  {
    if |steps| != 0 {
      ReplaceAllAbsent(t, steps[0].0, steps[0].1);
      ApplyAllAbsent(t, steps[1..]);
    }
  }

  /** A single character `c` comes out of the steps as the replacement of
      the first step for `c`, provided no later step rewrites a character of
      that replacement. */
  lemma {:induction false} ApplyAllHit(c: char, steps: seq<(char, string)>, m: nat)
    requires m < |steps| && steps[m].0 == c
    requires forall j | 0 <= j < m :: steps[j].0 != c
    requires forall j, i | m < j < |steps| && 0 <= i < |steps[m].1| :: steps[m].1[i] != steps[j].0
    ensures ApplyAll([c], steps) == steps[m].1
    decreases |steps|
  {
    ReplaceAllSingle(c, steps[0].0, steps[0].1);
    if m == 0 {
      ApplyAllAbsent(steps[0].1, steps[1..]);
    } else {
      ApplyAllHit(c, steps[1..], m - 1);
    }
  }

  /** The chain applied to a single character yields that character's
      replacement. */
  lemma EscapeHtmlOneChar(c: char)
    ensures EscapeHtml([c]) == EscapeChar(c)
  {
    var steps := Replacements;
    if c == '&' {
      ApplyAllHit(c, steps, 0);
    } else if c == '<' {
      ApplyAllHit(c, steps, 1);
    } else if c == '>' {
      ApplyAllHit(c, steps, 2);
    } else if c == '"' {
      ApplyAllHit(c, steps, 3);
    } else if c == '\'' {
      ApplyAllHit(c, steps, 4);
    } else {
      ApplyAllAbsent([c], steps);
    }
  }

  /** The escaper as written distributes over concatenation. */
  lemma EscapeHtmlConcat(a: string, b: string)
    ensures EscapeHtml(a + b) == EscapeHtml(a) + EscapeHtml(b)
  {
    ApplyAllConcat(a, b, Replacements);
  }

  /** The five chained replacements compute exactly the one-pass map:
      replacing `&` first means no reference written by a later step is
      escaped again. */
  lemma {:induction false} EscapeHtmlIsCharwise(s: string)
    ensures EscapeHtml(s) == EscapeCharwise(s)
    decreases |s|
  {
    if |s| == 0 {
      ApplyAllAbsent(s, Replacements);
    } else {
      assert s == [s[0]] + s[1..];
      EscapeHtmlConcat([s[0]], s[1..]);
      EscapeHtmlOneChar(s[0]);
      EscapeHtmlIsCharwise(s[1..]);
    }
  }

  /** The same five replacements with `&` moved to the end. */
  const AmpersandLast: seq<(char, string)> :=
    [('<', LtRef), ('>', GtRef), ('"', QuotRef), ('\'', AposRef), ('&', AmpRef)]

  /** Replacing `&` last instead would escape the references written for the
      other four characters a second time. */
  lemma AmpersandFirstAvoidsDoubleEscaping()
    ensures EscapeHtml("<") == "&lt;"
    ensures ApplyAll("<", AmpersandLast) == "&amp;lt;"
  {
    assert "<" == ['<'];
    EscapeHtmlOneChar('<');
    AmpersandLastOnLt();
  }

  lemma AmpersandLastOnLt()
    ensures ApplyAll(['<'], AmpersandLast) == AmpRef + "lt;"
  {
    var steps := AmpersandLast;
    var middle, last := steps[1..4], steps[4..];
    ReplaceAllSingle('<', '<', LtRef);
    assert ApplyAll(['<'], steps) == ApplyAll(LtRef, steps[1..]);
    assert steps[1..] == middle + last;
    assert middle == [('>', GtRef), ('"', QuotRef), ('\'', AposRef)];
    ApplyAllSplit(LtRef, middle, last);
    LtRefSurvivesMiddle();
    assert last == [('&', AmpRef)];
    ApplyAllOne(LtRef, '&', AmpRef);
    AmpersandInLtRef();
  }

  /** `&lt;` holds none of `>`, `"` and `'`, so their replacements keep it. */
  lemma LtRefSurvivesMiddle()
    ensures ApplyAll(LtRef, [('>', GtRef), ('"', QuotRef), ('\'', AposRef)]) == LtRef
  {
    ApplyAllAbsent(LtRef, [('>', GtRef), ('"', QuotRef), ('\'', AposRef)]);
  }

  lemma ApplyAllOne(s: string, c: char, rep: string)
    ensures ApplyAll(s, [(c, rep)]) == ReplaceAll(s, c, rep)
  {
    assert [(c, rep)][1..] == [];
  }

  lemma AmpersandInLtRef()
    ensures ReplaceAll(LtRef, '&', AmpRef) == AmpRef + "lt;"
  {
    assert LtRef == ['&'] + "lt;";
    ReplaceAllConcat(['&'], "lt;", '&', AmpRef);
    ReplaceAllSingle('&', '&', AmpRef);
    ReplaceAllAbsent("lt;", '&', AmpRef);
  }

  lemma {:induction false} ApplyAllSplit(s: string, a: seq<(char, string)>, b: seq<(char, string)>)
    ensures ApplyAll(s, a + b) == ApplyAll(ApplyAll(s, a), b)
    decreases |a|
  {
    if |a| == 0 {
      assert a + b == b;
    } else {
      assert (a + b)[1..] == a[1..] + b;
      ApplyAllSplit(ReplaceAll(s, a[0].0, a[0].1), a[1..], b);
    }
  }

  // ---------------------------------------------------------------------
  // Decoding the five references.

  /** The markup character whose reference begins `t`, if any. */
  function LeadingRef(t: string): (r: Option<char>)
    ensures r.Some? ==> IsMarkupChar(r.value) && EscapeChar(r.value) <= t
    ensures r.None? ==> forall c | IsMarkupChar(c) :: !(EscapeChar(c) <= t)
  {
    if AmpRef <= t then Some('&')
    else if LtRef <= t then Some('<')
    else if GtRef <= t then Some('>')
    else if QuotRef <= t then Some('"')
    else if AposRef <= t then Some('\'')
    else None
  }

  /** A decoder that turns each of the five references back into its
      character and copies everything else. */
  function Unescape(t: string): (r: string)
    ensures |r| <= |t|
    decreases |t|
  {
    if |t| == 0 then ""
    else match LeadingRef(t)
      case Some(c) => [c] + Unescape(t[|EscapeChar(c)|..])
      case None => [t[0]] + Unescape(t[1..])
  }

  /** No reference is a prefix of another, so the decoder recognises the
      reference the escaper wrote for `c` and nothing else. */
  lemma LeadingRefOfEscaped(c: char, u: string)
    ensures LeadingRef(EscapeChar(c) + u) == (if IsMarkupChar(c) then Some(c) else None)
  {
    var t := EscapeChar(c) + u;
    assert t[0] == EscapeChar(c)[0];
    if IsMarkupChar(c) {
      assert EscapeChar(c) <= t;
      assert t[1] == EscapeChar(c)[1];
    }
  }

  /** Decoding undoes the escaper: the page's escaping loses nothing. */
  lemma {:induction false} UnescapeEscapeHtml(s: string)
    ensures Unescape(EscapeHtml(s)) == s
  {
    EscapeHtmlIsCharwise(s);
    UnescapeCharwise(s);
  }

  lemma {:induction false} UnescapeCharwise(s: string)
    ensures Unescape(EscapeCharwise(s)) == s
    decreases |s|
  {
    if |s| != 0 {
      var head, tail := EscapeChar(s[0]), EscapeCharwise(s[1..]);
      var t := head + tail;
      LeadingRefOfEscaped(s[0], tail);
      if IsMarkupChar(s[0]) {
        assert t[|head|..] == tail;
      } else {
        assert t[1..] == tail;
      }
      UnescapeCharwise(s[1..]);
      assert s == [s[0]] + s[1..];
    }
  }

  /** Distinct inputs escape to distinct outputs. */
  lemma EscapeHtmlInjective(a: string, b: string)
    requires EscapeHtml(a) == EscapeHtml(b)
    ensures a == b
  {
    UnescapeEscapeHtml(a);
    UnescapeEscapeHtml(b);
  }

  // ---------------------------------------------------------------------
  // Shape of the escaped output.

  /** Every `&` in `t` begins one of the five references. */
  predicate AmpersandsStartReferences(t: string) {
    forall i | 0 <= i < |t| && t[i] == '&' :: LeadingRef(t[i..]).Some?
  }

  /** `t` is in escaped form: no raw markup character, and every `&` is the
      start of a reference. */
  predicate IsEscaped(t: string) {
    && (forall i | 0 <= i < |t| :: !IsRawMarkup(t[i]))
    && AmpersandsStartReferences(t)
  }

  /** The escaper's output never contains `<`, `>`, `"` or `'`. */
  lemma EscapeHtmlNoRawMarkup(s: string)
    ensures forall i | 0 <= i < |EscapeHtml(s)| :: !IsRawMarkup(EscapeHtml(s)[i])
  {
    EscapeHtmlIsCharwise(s);
  }

  lemma {:induction false} CharwiseAmpersandsStartReferences(s: string)
    ensures AmpersandsStartReferences(EscapeCharwise(s))
    decreases |s|
  {
    if |s| != 0 {
      var head, tail := EscapeChar(s[0]), EscapeCharwise(s[1..]);
      var t := head + tail;
      CharwiseAmpersandsStartReferences(s[1..]);
      forall i | 0 <= i < |t| && t[i] == '&'
        ensures LeadingRef(t[i..]).Some?
      {
        if i < |head| {
          assert i == 0;
          assert t[i..] == head + tail;
          LeadingRefOfEscaped(s[0], tail);
        } else {
          assert t[i..] == tail[i - |head|..];
          assert tail[i - |head|] == '&';
        }
      }
    }
  }

  /** Every `&` in the escaper's output begins one of the five references. */
  lemma EscapeHtmlAmpersandsStartReferences(s: string)
    ensures AmpersandsStartReferences(EscapeHtml(s))
  {
    EscapeHtmlIsCharwise(s);
    CharwiseAmpersandsStartReferences(s);
  }

  /** The escaper's output is in escaped form. */
  lemma EscapeHtmlIsEscaped(s: string)
    ensures IsEscaped(EscapeHtml(s))
  {
    EscapeHtmlNoRawMarkup(s);
    EscapeHtmlAmpersandsStartReferences(s);
  }

  lemma IsEscapedSuffix(t: string, k: nat)
    requires k <= |t|
    requires IsEscaped(t)
    ensures IsEscaped(t[k..])
  {
    var u := t[k..];
    forall i | 0 <= i < |u| && u[i] == '&'
      ensures LeadingRef(u[i..]).Some?
    {
      assert t[k + i] == '&';
      assert u[i..] == t[k + i..];
    }
  }

  /** Every string in escaped form is the escaping of its decoding, so the
      escaper maps all strings one-to-one onto the escaped-form strings. */
  lemma {:induction false} EscapeHtmlUnescape(t: string)
    requires IsEscaped(t)
    ensures EscapeHtml(Unescape(t)) == t
    decreases |t|
  {
    EscapeHtmlIsCharwise(Unescape(t));
    CharwiseUnescape(t);
  }

  lemma {:induction false} CharwiseUnescape(t: string)
    requires IsEscaped(t)
    ensures EscapeCharwise(Unescape(t)) == t
    decreases |t|
  {
    if |t| != 0 {
      match LeadingRef(t)
      case Some(c) =>
        var k := |EscapeChar(c)|;
        IsEscapedSuffix(t, k);
        CharwiseUnescape(t[k..]);
        UnescapeStep(t, c, k, Unescape(t[k..]));
      case None =>
        assert t[0..] == t;
        IsEscapedSuffix(t, 1);
        CharwiseUnescape(t[1..]);
        assert !IsMarkupChar(t[0]);
        UnescapeStep(t, t[0], 1, Unescape(t[1..]));
    }
  }

  /** One step of the decoder: if `t` starts with the escaping of `c`, which
      is `k` characters long, and `u` escapes to the rest of `t`, then
      `[c] + u` escapes to `t`. */
  lemma UnescapeStep(t: string, c: char, k: nat, u: string)
    requires k == |EscapeChar(c)| <= |t|
    requires EscapeChar(c) == t[..k]
    requires EscapeCharwise(u) == t[k..]
    ensures EscapeCharwise([c] + u) == t
  {
    assert ([c] + u)[0] == c;
    assert ([c] + u)[1..] == u;
    assert t == t[..k] + t[k..];
  }

  // ---------------------------------------------------------------------
  // Length and the identity on safe strings.

  /** Number of occurrences of `c` in `s`. */
  function Count(s: string, c: char): nat
    decreases |s|
  {
    if |s| == 0 then 0 else (if s[0] == c then 1 else 0) + Count(s[1..], c)
  }

  /** `&` becomes five characters, `<` and `>` four, `"` and `'` six, and
      everything else one. */
  lemma {:induction false} EscapeHtmlLength(s: string)
    ensures |EscapeHtml(s)| == |s| + 4 * Count(s, '&') + 3 * Count(s, '<') + 3 * Count(s, '>')
                                   + 5 * Count(s, '"') + 5 * Count(s, '\'')
  {
    EscapeHtmlIsCharwise(s);
    CharwiseLength(s);
  }

  lemma {:induction false} CharwiseLength(s: string)
    ensures |EscapeCharwise(s)| == |s| + 4 * Count(s, '&') + 3 * Count(s, '<') + 3 * Count(s, '>')
                                       + 5 * Count(s, '"') + 5 * Count(s, '\'')
    decreases |s|
  {
    if |s| != 0 {
      CharwiseLength(s[1..]);
    }
  }

  /** `s` contains none of the five markup characters. */
  predicate IsSafe(s: string) {
    forall i | 0 <= i < |s| :: !IsMarkupChar(s[i])
  }

  lemma {:induction false} CharwiseIdentityIffSafe(s: string)
    ensures EscapeCharwise(s) == s <==> IsSafe(s)
    decreases |s|
  {
    if |s| != 0 {
      CharwiseIdentityIffSafe(s[1..]);
      var head, tail := EscapeChar(s[0]), EscapeCharwise(s[1..]);
      if IsSafe(s) {
        assert IsSafe(s[1..]) by {
          forall i | 0 <= i < |s[1..]| ensures !IsMarkupChar(s[1..][i]) {
            assert s[1..][i] == s[i + 1];
          }
        }
        assert s == [s[0]] + s[1..];
      }
      if head + tail == s {
        assert |head| == 1 by {
          assert |s[1..]| <= |tail|;
        }
        assert !IsMarkupChar(s[0]);
        assert tail == s[1..] by {
          assert (head + tail)[1..] == tail;
        }
        forall i | 0 <= i < |s| ensures !IsMarkupChar(s[i]) {
          if i > 0 {
            assert s[i] == s[1..][i - 1];
          }
        }
      }
    }
  }

  /** The escaper leaves a string unchanged exactly when it contains none of
      `& < > " '`. */
  lemma EscapeHtmlIdentityIffSafe(s: string)
    ensures EscapeHtml(s) == s <==> IsSafe(s)
  {
    EscapeHtmlIsCharwise(s);
    CharwiseIdentityIffSafe(s);
  }
}
