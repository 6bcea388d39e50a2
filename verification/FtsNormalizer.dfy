/** Text normalisation applied to a chapter's Text and Title before they enter the full-text index. */
module FtsNormalizer {
  import opened Wrappers
  import opened Sequences

  /** `char.IsWhiteSpace`: the Unicode space, line and paragraph separators, the controls
      U+0009 to U+000D, and U+0085. */
  predicate IsWhiteSpace(c: char)
  {
    c == ' ' || ('\t' <= c <= '\r') || c == '\U{0085}' || c == '\U{00A0}' || c == '\U{1680}'
    || ('\U{2000}' <= c <= '\U{200A}') || c == '\U{2028}' || c == '\U{2029}'
    || c == '\U{202F}' || c == '\U{205F}' || c == '\U{3000}'
  }

  /** `string.IsNullOrWhiteSpace`. */
  predicate IsNullOrWhiteSpace(text: Option<string>)
  {
    text.None? || forall i :: 0 <= i < |text.value| ==> IsWhiteSpace(text.value[i])
  }

  /** Scanner for the tail `[^>]*>` of the tag pattern: the first `>` at or after `from`. */
  function NextClose(s: string, from: nat): (r: Option<nat>)
    ensures r.Some? ==> from <= r.value < |s| && s[r.value] == '>'
    ensures r.Some? ==> forall k :: from <= k < r.value ==> s[k] != '>'
    ensures r.None? ==> forall k :: from <= k < |s| ==> s[k] != '>'
    decreases |s| - from
  {
    if from >= |s| then None
    else if s[from] == '>' then Some(from)
    else NextClose(s, from + 1)
  }

  /** Replacing every match of the pattern `<[^>]*>` by the empty string, scanning leftmost
      first: a `<` starts a match when some `>` follows it, and the match ends at the first such
      `>`; scanning resumes right after a match, and a character that starts no match is kept. */
  function StripTags(s: string): string
    decreases |s|
  {
    if s == [] then []
    else
      var close := NextClose(s, 1);
      if s[0] == '<' && close.Some? then StripTags(s[close.value + 1..])
      else [s[0]] + StripTags(s[1..])
  }

  /** Some `<` is followed, later in the string, by a `>`: the pattern matches somewhere. */
  predicate HasTag(s: string)
  {
    exists i, j :: 0 <= i < j < |s| && s[i] == '<' && s[j] == '>'
  }

  /** `FtsNormalizer.NormalizeText`: null or white-space-only text becomes empty; anything else
      loses its tags. */
  function NormalizeText(text: Option<string>): (r: string)
    ensures IsNullOrWhiteSpace(text) ==> r == []
    ensures text.Some? ==> IsSubsequence(r, text.value)
    ensures !HasTag(r)
    ensures text.Some? && !IsNullOrWhiteSpace(text) && !HasTag(text.value) ==> r == text.value
  {
    if IsNullOrWhiteSpace(text) then []
    else
      StripTagsSubsequence(text.value);
      StripTagsLeavesNoTag(text.value);
      StripTagsFixedIff(text.value);
      StripTags(text.value)
  }

  /** The kept characters are a subsequence of the input, in order. */
  lemma {:induction false} StripTagsSubsequence(s: string)
    ensures IsSubsequence(StripTags(s), s)
    decreases |s|
  {
    if s != [] {
      var close := NextClose(s, 1);
      if s[0] == '<' && close.Some? {
        StripTagsSubsequence(s[close.value + 1..]);
        SubsequenceOfSuffix(StripTags(s), s, close.value + 1);
      } else {
        StripTagsSubsequence(s[1..]);
        var r := StripTags(s);
        assert r[0] == s[0] && r[1..] == StripTags(s[1..]);
      }
    }
  }

  /** A tag in a suffix is a tag of the whole string. */
  lemma TagInTail(s: string)
    requires s != [] && HasTag(s[1..])
    ensures HasTag(s)
  {
    var i, j :| 0 <= i < j < |s[1..]| && s[1..][i] == '<' && s[1..][j] == '>';
    assert s[i + 1] == '<' && s[j + 1] == '>';
  }

  /** A string whose every `<` has no `>` after it is left unchanged. */
  lemma {:induction false} NoTagUnchanged(s: string)
    requires !HasTag(s)
    ensures StripTags(s) == s
    decreases |s|
  {
    if s != [] {
      var close := NextClose(s, 1);
      if HasTag(s[1..]) {
        TagInTail(s);
      }
      NoTagUnchanged(s[1..]);
    }
  }

  /** Stripping never lengthens the text, and shortens it whenever a tag is present. */
  lemma {:induction false} TagShrinks(s: string)
    ensures |StripTags(s)| <= |s|
    ensures HasTag(s) ==> |StripTags(s)| < |s|
    decreases |s|
  {
    if s != [] {
      var close := NextClose(s, 1);
      if s[0] == '<' && close.Some? {
        TagShrinks(s[close.value + 1..]);
      } else {
        TagShrinks(s[1..]);
        if HasTag(s) {
          var i, j :| 0 <= i < j < |s| && s[i] == '<' && s[j] == '>';
          assert s[1..][i - 1] == '<' && s[1..][j - 1] == '>';
        }
      }
    }
  }

  /** The input comes back unchanged exactly when it contains no tag; in particular a string
      without `<` (or without `>`) is unchanged. */
  lemma StripTagsFixedIff(s: string)
    ensures StripTags(s) == s <==> !HasTag(s)
  {
    TagShrinks(s);
    if !HasTag(s) {
      NoTagUnchanged(s);
    }
  }

  /** No `<` kept in the result is followed by a `>`: the pattern no longer matches. */
  lemma {:induction false} StripTagsLeavesNoTag(s: string)
    ensures !HasTag(StripTags(s))
    decreases |s|
  {
    if s != [] {
      var close := NextClose(s, 1);
      if s[0] == '<' && close.Some? {
        StripTagsLeavesNoTag(s[close.value + 1..]);
      } else if s[0] == '<' {
        NoTagUnchanged(s);
      } else {
        StripTagsLeavesNoTag(s[1..]);
      }
    }
  }

  /** Stripping twice is stripping once. */
  lemma StripTagsIdempotent(s: string)
    ensures StripTags(StripTags(s)) == StripTags(s)
  {
    StripTagsLeavesNoTag(s);
    NoTagUnchanged(StripTags(s));
  }

  /** Text before the first `<` is kept as it is. */
  lemma {:induction false} StripTagsKeepsPrefix(p: string, s: string)
    requires '<' !in p
    ensures StripTags(p + s) == p + StripTags(s)
    decreases |p|
  {
    if p != [] {
      assert p[0] != '<' && '<' !in p[1..];
      assert (p + s)[0] == p[0];
      assert (p + s)[1..] == p[1..] + s;
      StripTagsKeepsPrefix(p[1..], s);
      assert StripTags(p + s) == [p[0]] + StripTags(p[1..] + s);
      assert p == [p[0]] + p[1..];
    } else {
      assert p + s == s;
    }
  }

  /** A `<` with a later `>` is removed together with everything up to the first such `>`,
      and scanning resumes after it. */
  lemma StripTagsRemovesTag(m: string, q: string)
    requires '>' !in m
    ensures StripTags(['<'] + m + ['>'] + q) == StripTags(q)
  {
    var s := ['<'] + m + ['>'] + q;
    var c := |m| + 1;
    assert s[c] == '>';
    forall k | 1 <= k < c ensures s[k] != '>' {
      assert s[k] == m[k - 1];
    }
    var close := NextClose(s, 1);
    assert close.Some?;
    assert close.value == c;
    assert s[c + 1..] == q;
  }

  /** Normalising twice agrees with normalising once, except that text which is only white
      space once its tags are gone becomes empty the second time. */
  lemma NormalizeTwice(text: Option<string>)
    ensures var r := NormalizeText(text);
      NormalizeText(Some(r)) == if IsNullOrWhiteSpace(Some(r)) then [] else r
  {
    var r := NormalizeText(text);
    if !IsNullOrWhiteSpace(Some(r)) {
      StripTagsFixedIff(r);
    }
  }

  /** The white-space test runs before the tags are stripped, so a chapter whose text is only
      a tag around a space is indexed as a single space, not as empty text. */
  lemma WhiteSpaceInsideTags()
    ensures NormalizeText(Some("<b> </b>")) == " "
    ensures NormalizeText(Some(" ")) == []
  {
    var s := "<b> </b>";
    assert s[0] == '<' && !IsWhiteSpace(s[0]);
    StripTagsRemovesTag("b", " </b>");
    assert s == ['<'] + "b" + ['>'] + " </b>";
    StripTagsKeepsPrefix(" ", "</b>");
    assert " </b>" == " " + "</b>";
    StripTagsRemovesTag("/b", []);
    assert "</b>" == ['<'] + "/b" + ['>'] + [];
  }

  /** Markup around a word normalises to the bare word. */
  lemma NormalizeBoldX()
    ensures NormalizeText(Some("<b>x</b>")) == "x"
    ensures NormalizeText(Some("x")) == "x"
  {
    var s := "<b>x</b>";
    assert s[0] == '<' && !IsWhiteSpace(s[0]);
    assert s == ['<'] + "b" + ['>'] + "x</b>";
    StripTagsRemovesTag("b", "x</b>");
    assert "x</b>" == "x" + "</b>";
    StripTagsKeepsPrefix("x", "</b>");
    assert "</b>" == ['<'] + "/b" + ['>'] + [];
    StripTagsRemovesTag("/b", []);
    assert "x"[0] == 'x' && !IsWhiteSpace("x"[0]);
    NoTagUnchanged("x");
  }
}
