/**
  The code editor's `escapeHtml`: five chained global replacements that turn the
  typed code into text safe to assign to `innerHTML`.

  The model keeps the chain exactly as written (`EscapeHtml`) and relates it to an
  independent per-character definition (`EscapeEach`) and to the browser's decoding of
  the five entities (`Unescape`).
*/
module HtmlEscape {

  /** `s.replace(/c/g, rep)` for a one-character pattern. */
  function ReplaceAll(s: string, c: char, rep: string): (r: string)
    ensures c !in rep ==> c !in r
  {
    if |s| == 0 then ""
    else (if s[0] == c then rep else [s[0]]) + ReplaceAll(s[1..], c, rep)
  }

  /** A replacement introduces no character that neither its input nor its
      replacement text holds. */
  lemma {:induction false} ReplaceAllAddsNothing(s: string, c: char, rep: string, x: char)
    requires x !in s && x !in rep
    ensures x !in ReplaceAll(s, c, rep)
    decreases |s|
  {
    if |s| > 0 {
      ReplaceAllAddsNothing(s[1..], c, rep, x);
    }
  }

  /** The five characters `escapeHtml` rewrites. */
  predicate IsSpecial(c: char) {
    c == '&' || c == '<' || c == '>' || c == '"' || c == '\''
  }

  /** The chain as the editor writes it; the ampersand goes first. */
  function EscapeHtml(unsafe: string): (r: string)
    ensures '<' !in r && '>' !in r && '"' !in r && '\'' !in r
  {
    var s1 := ReplaceAll(unsafe, '&', "&amp;");
    var s2 := ReplaceAll(s1, '<', "&lt;");
    var s3 := ReplaceAll(s2, '>', "&gt;");
    ReplaceAllAddsNothing(s2, '>', "&gt;", '<');
    var s4 := ReplaceAll(s3, '"', "&quot;");
    ReplaceAllAddsNothing(s3, '"', "&quot;", '<');
    ReplaceAllAddsNothing(s3, '"', "&quot;", '>');
    var r := ReplaceAll(s4, '\'', "&#039;");
    ReplaceAllAddsNothing(s4, '\'', "&#039;", '<');
    ReplaceAllAddsNothing(s4, '\'', "&#039;", '>');
    ReplaceAllAddsNothing(s4, '\'', "&#039;", '"');
    r
  }

  /** The entity each character becomes on its own. */
  function EscapeChar(c: char): (r: string)
    ensures IsSpecial(c) ==> |r| >= 4 && r[0] == '&'
    ensures !IsSpecial(c) ==> r == [c]
  {
    if c == '&' then "&amp;"
    else if c == '<' then "&lt;"
    else if c == '>' then "&gt;"
    else if c == '"' then "&quot;"
    else if c == '\'' then "&#039;"
    else [c]
  }

  /** Reference definition: escape every character independently and concatenate. */
  function EscapeEach(s: string): string {
    if |s| == 0 then "" else EscapeChar(s[0]) + EscapeEach(s[1..])
  }

  lemma {:induction false} EscapeEachLength(s: string)
    ensures |EscapeEach(s)| >= |s|
    decreases |s|
  {
    if |s| > 0 {
      EscapeEachLength(s[1..]);
    }
  }

  lemma {:induction false} ReplaceAllAppend(a: string, b: string, c: char, rep: string)
    ensures ReplaceAll(a + b, c, rep) == ReplaceAll(a, c, rep) + ReplaceAll(b, c, rep)
    decreases |a|
  {
    if |a| > 0 {
      assert (a + b)[1..] == a[1..] + b;
      ReplaceAllAppend(a[1..], b, c, rep);
    } else {
      assert a + b == b;
    }
  }

  /** `escapeHtml(a + b) == escapeHtml(a) + escapeHtml(b)`: each replacement distributes
      over concatenation, so no entity is split or rewritten across the seam. */
  lemma EscapeHtmlAppend(a: string, b: string)
    ensures EscapeHtml(a + b) == EscapeHtml(a) + EscapeHtml(b)
  {
    var a1, b1 := ReplaceAll(a, '&', "&amp;"), ReplaceAll(b, '&', "&amp;");
    ReplaceAllAppend(a, b, '&', "&amp;");
    var a2, b2 := ReplaceAll(a1, '<', "&lt;"), ReplaceAll(b1, '<', "&lt;");
    ReplaceAllAppend(a1, b1, '<', "&lt;");
    var a3, b3 := ReplaceAll(a2, '>', "&gt;"), ReplaceAll(b2, '>', "&gt;");
    ReplaceAllAppend(a2, b2, '>', "&gt;");
    var a4, b4 := ReplaceAll(a3, '"', "&quot;"), ReplaceAll(b3, '"', "&quot;");
    ReplaceAllAppend(a3, b3, '"', "&quot;");
    ReplaceAllAppend(a4, b4, '\'', "&#039;");
  }

  lemma OneReplace(c: char, x: char, rep: string)
    ensures ReplaceAll([c], x, rep) == if c == x then rep else [c]
  {
    assert [c][1..] == "";
  }

  /** Replacing a character that does not occur changes nothing. */
  lemma {:induction false} ReplaceAllAbsent(s: string, c: char, rep: string)
    requires c !in s
    ensures ReplaceAll(s, c, rep) == s
    decreases |s|
  {
    if |s| > 0 {
      ReplaceAllAbsent(s[1..], c, rep);
      assert s == [s[0]] + s[1..];
    }
  }

  /** The steps after the one that produced `e` find nothing to replace. */
  lemma RestKeep(e: string)
    requires '<' !in e && '>' !in e && '"' !in e && '\'' !in e
    ensures ReplaceAll(ReplaceAll(ReplaceAll(ReplaceAll(
      e, '<', "&lt;"), '>', "&gt;"), '"', "&quot;"), '\'', "&#039;") == e
  {
    ReplaceAllAbsent(e, '<', "&lt;");
    ReplaceAllAbsent(e, '>', "&gt;");
    ReplaceAllAbsent(e, '"', "&quot;");
    ReplaceAllAbsent(e, '\'', "&#039;");
  }

  /** On a single character the chain produces exactly that character's entity:
      the step for that character creates the entity and every other step finds
      nothing to replace. */
  lemma EscapeHtmlSingle(c: char)
    ensures EscapeHtml([c]) == EscapeChar(c)
  {
    OneReplace(c, '&', "&amp;");
    if c == '&' {
      RestKeep("&amp;");
    } else {
      EscapeAfterAmp(c);
    }
  }

  /** The chain from the second step on, applied to a character other than `&`. */
  lemma EscapeAfterAmp(c: char)
    requires c != '&'
    ensures ReplaceAll(ReplaceAll(ReplaceAll(ReplaceAll(
      [c], '<', "&lt;"), '>', "&gt;"), '"', "&quot;"), '\'', "&#039;") == EscapeChar(c)
  {
    var s2 := ReplaceAll([c], '<', "&lt;");
    OneReplace(c, '<', "&lt;");
    if c == '<' {
      RestKeep("&lt;");
    } else {
      assert s2 == [c];
      var s3 := ReplaceAll(s2, '>', "&gt;");
      OneReplace(c, '>', "&gt;");
      if c == '>' {
        assert s3 == "&gt;";
        ReplaceAllAbsent("&gt;", '"', "&quot;");
        ReplaceAllAbsent("&gt;", '\'', "&#039;");
      } else {
        assert s3 == [c];
        var s4 := ReplaceAll(s3, '"', "&quot;");
        OneReplace(c, '"', "&quot;");
        OneReplace(c, '\'', "&#039;");
        if c == '"' {
          assert s4 == "&quot;";
          ReplaceAllAbsent("&quot;", '\'', "&#039;");
        } else {
          assert s4 == [c];
        }
      }
    }
  }

  /** The replace chain equals the per-character map. */
  lemma {:induction false} EscapeHtmlIsPerChar(s: string)
    ensures EscapeHtml(s) == EscapeEach(s)
    decreases |s|
  {
    if |s| == 0 {
    } else {
      assert s == [s[0]] + s[1..];
      EscapeHtmlAppend([s[0]], s[1..]);
      EscapeHtmlSingle(s[0]);
      EscapeHtmlIsPerChar(s[1..]);
    }
  }

  /** Escaping never shortens the text. */
  lemma EscapeHtmlNeverShrinks(s: string)
    ensures |EscapeHtml(s)| >= |s|
  {
    EscapeHtmlIsPerChar(s);
    EscapeEachLength(s);
  }

  /** A string with none of the five special characters is returned unchanged. */
  lemma {:induction false} EscapeHtmlKeepsPlainText(s: string)
    requires forall k | 0 <= k < |s| :: !IsSpecial(s[k])
    ensures EscapeHtml(s) == s
    decreases |s|
  {
    EscapeHtmlIsPerChar(s);
    EscapeEachPlain(s);
  }

  lemma {:induction false} EscapeEachPlain(s: string)
    requires forall k | 0 <= k < |s| :: !IsSpecial(s[k])
    ensures EscapeEach(s) == s
    decreases |s|
  {
    if |s| > 0 {
      EscapeEachPlain(s[1..]);
    }
  }

  predicate StartsWith(s: string, prefix: string) {
    |prefix| <= |s| && s[..|prefix|] == prefix
  }

  /** How the browser reads the five entities back when the escaped text is assigned
      to `innerHTML`; any other character stands for itself. */
  function Unescape(s: string): string
    decreases |s|
  {
    if |s| == 0 then ""
    else if StartsWith(s, "&amp;") then "&" + Unescape(s[5..])
    else if StartsWith(s, "&lt;") then "<" + Unescape(s[4..])
    else if StartsWith(s, "&gt;") then ">" + Unescape(s[4..])
    else if StartsWith(s, "&quot;") then "\"" + Unescape(s[6..])
    else if StartsWith(s, "&#039;") then "'" + Unescape(s[6..])
    else [s[0]] + Unescape(s[1..])
  }

  lemma UnescapeOneEntity(c: char, t: string)
    ensures Unescape(EscapeChar(c) + t) == [c] + Unescape(t)
  {
    var e := EscapeChar(c);
    var s := e + t;
    assert s[..|e|] == e;
    if !IsSpecial(c) {
      assert s[0] == c && s[1..] == t;
      assert !StartsWith(s, "&amp;") && !StartsWith(s, "&lt;") && !StartsWith(s, "&gt;");
      assert !StartsWith(s, "&quot;") && !StartsWith(s, "&#039;");
    } else if c == '&' {
      assert StartsWith(s, "&amp;");
      assert s[5..] == t;
    } else if c == '<' {
      UnescapeLt(t);
    } else if c == '>' {
      UnescapeGt(t);
    } else if c == '"' {
      UnescapeQuot(t);
    } else {
      UnescapeApos(t);
    }
  }

  lemma UnescapeLt(t: string)
    ensures Unescape("&lt;" + t) == "<" + Unescape(t)
  {
    var s := "&lt;" + t;
    assert s[1] == 'l' && s[..4] == "&lt;" && s[4..] == t;
  }

  lemma UnescapeGt(t: string)
    ensures Unescape("&gt;" + t) == ">" + Unescape(t)
  {
    var s := "&gt;" + t;
    assert s[1] == 'g' && s[..4] == "&gt;" && s[4..] == t;
  }

  lemma UnescapeQuot(t: string)
    ensures Unescape("&quot;" + t) == "\"" + Unescape(t)
  {
    var s := "&quot;" + t;
    assert s[1] == 'q' && s[..6] == "&quot;" && s[6..] == t;
  }

  lemma UnescapeApos(t: string)
    ensures Unescape("&#039;" + t) == "'" + Unescape(t)
  {
    var s := "&#039;" + t;
    assert s[1] == '#' && s[..6] == "&#039;" && s[6..] == t;
  }

  lemma {:induction false} UnescapeEscapeEach(s: string)
    ensures Unescape(EscapeEach(s)) == s
    decreases |s|
  {
    if |s| == 0 {
    } else {
      UnescapeOneEntity(s[0], EscapeEach(s[1..]));
      UnescapeEscapeEach(s[1..]);
      assert s == [s[0]] + s[1..];
    }
  }

  /** Decoding the five entities gives back exactly the string that was escaped:
      every character, special or not, survives in order. */
  lemma EscapeHtmlRoundTrip(s: string)
    ensures Unescape(EscapeHtml(s)) == s
  {
    EscapeHtmlIsPerChar(s);
    UnescapeEscapeEach(s);
  }
}
