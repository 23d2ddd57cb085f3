/** The one-line preview of a node's rich-text note shown on the canvas:
    tags become spaces, whitespace runs collapse to one space, the ends are trimmed,
    and text longer than 40 characters is cut to 40 followed by "...". */
module NotePreview {
  import opened Wrappers
  import opened Sequences

  const PreviewLength := 40

  /** A character matched by JavaScript's `\s` (and removed by `trim`): the ECMAScript
      white-space and line-terminator characters. */
  predicate IsSpace(c: char)
  {
    var k := c as int;
    || k == 0x09 || k == 0x0A || k == 0x0B || k == 0x0C || k == 0x0D || k == 0x20
    || k == 0xA0 || k == 0x1680 || (0x2000 <= k <= 0x200A) || k == 0x2028 || k == 0x2029
    || k == 0x202F || k == 0x205F || k == 0x3000 || k == 0xFEFF
  }

  ghost predicate AllSpace(s: string)
  {
    forall i :: 0 <= i < |s| ==> IsSpace(s[i])
  }

  predicate IsVisible(c: char)
  {
    !IsSpace(c)
  }

  /** The text with every white-space character removed: what a reader sees. */
  ghost function Visible(s: string): string
  {
    Filter(s, IsVisible)
  }

  /** No two neighbouring characters are both white space. */
  ghost predicate NoDoubledSpace(s: string)
  {
    forall i, j :: 0 <= i < j < |s| && j == i + 1 ==> !IsSpace(s[i]) || !IsSpace(s[j])
  }

  /** A cleaned preview text: no tag opener, white space only as single inner spaces. */
  ghost predicate Tidy(s: string)
  {
    && '<' !in s
    && (forall i :: 0 <= i < |s| && IsSpace(s[i]) ==> s[i] == ' ')
    && NoDoubledSpace(s)
    && (s != [] ==> !IsSpace(s[0]) && !IsSpace(s[|s| - 1]))
  }

  // ---------------------------------------------------------------- replace(/<[^>]*>?/gm, ' ')

  /** What is left after the rest of a tag, `[^>]*>?`: everything up to and including the
      first `>`, or the whole text when there is none. */
  function SkipTag(t: string): (r: string)
    ensures |r| <= |t| && r == t[|t| - |r|..]
    ensures '>' !in t ==> r == []
    ensures '>' in t ==> |r| < |t| && t[|t| - |r| - 1] == '>' && forall k :: 0 <= k < |t| - |r| - 1 ==> t[k] != '>'
  {
    if t == [] then []
    else if t[0] == '>' then t[1..]
    else
      var r := SkipTag(t[1..]);
      assert forall k :: 1 <= k < |t| ==> t[k] == t[1..][k - 1];
      r
  }

  /** Every tag-like run starting at a `<` replaced by one space. */
  function StripTags(s: string): (r: string)
    ensures |r| <= |s|
    ensures '<' !in r
    decreases |s|
  {
    if s == [] then []
    else if s[0] == '<' then " " + StripTags(SkipTag(s[1..]))
    else [s[0]] + StripTags(s[1..])
  }

  /** Text without a `<` passes through unchanged. */
  lemma {:induction false} StripTagsIdentity(s: string)
    requires '<' !in s
    ensures StripTags(s) == s
  {
    if s != [] {
      StripTagsIdentity(s[1..]);
      assert s == [s[0]] + s[1..];
    }
  }

  /** A tag closed by `>` is skipped up to and including that `>`. */
  lemma {:induction false} SkipTagPast(t: string, b: string)
    requires '>' !in t
    ensures SkipTag(t + ">" + b) == b
  {
    if t == [] {
      assert t + ">" + b == [">"[0]] + b;
    } else {
      assert (t + ">" + b)[1..] == t[1..] + ">" + b;
      SkipTagPast(t[1..], b);
    }
  }

  /** Text before the first `<` is copied unchanged. */
  lemma {:induction false} StripTagsPlain(a: string, b: string)
    requires '<' !in a
    ensures StripTags(a + b) == a + StripTags(b)
  {
    if a == [] {
      assert a + b == b;
    } else {
      assert (a + b)[1..] == a[1..] + b;
      StripTagsPlain(a[1..], b);
    }
  }

  /** One closed tag becomes one space: the text around it is kept. */
  lemma StripTagsOneTag(a: string, t: string, b: string)
    requires '<' !in a && '>' !in t
    ensures StripTags(a + "<" + t + ">" + b) == a + " " + StripTags(b)
  {
    var tag := "<" + t + ">" + b;
    assert a + "<" + t + ">" + b == a + tag by {
      ConcatAssoc(a, "<" + t + ">", b);
      ConcatAssoc(a, "<" + t, ">");
      ConcatAssoc(a, "<", t);
    }
    StripTagsPlain(a, tag);
    assert StripTags(tag) == " " + StripTags(b) by {
      assert tag[0] == '<' && tag[1..] == t + ">" + b;
      SkipTagPast(t, b);
    }
  }

  /** A `<` that is never closed takes the rest of the text with it, leaving one space. */
  lemma StripTagsOpenTag(a: string, t: string)
    requires '<' !in a && '>' !in t
    ensures StripTags(a + "<" + t) == a + " "
  {
    StripTagsPlain(a, "<" + t);
    assert a + "<" + t == a + ("<" + t);
    assert ("<" + t)[1..] == t;
  }

  // ---------------------------------------------------------------- replace(/\s+/g, ' ')

  /** The text after its leading white space (`trimStart`). */
  function DropSpaces(s: string): (r: string)
    ensures |r| <= |s| && r == s[|s| - |r|..]
    ensures AllSpace(s[..|s| - |r|])
    ensures r != [] ==> !IsSpace(r[0])
  {
    if s != [] && IsSpace(s[0]) then DropSpaces(s[1..]) else s
  }

  /** Every maximal run of white space replaced by one space. */
  function Collapse(s: string): (r: string)
    ensures |r| <= |s|
    ensures (r == []) == (s == [])
    ensures r != [] ==> IsSpace(r[0]) == IsSpace(s[0])
    decreases |s|
  {
    if s == [] then []
    else if IsSpace(s[0]) then " " + Collapse(DropSpaces(s))
    else [s[0]] + Collapse(s[1..])
  }

  /** After collapsing, the only white space is single spaces, never two side by side,
      and no `<` appears that was not there before. */
  lemma CollapseShape(s: string)
    ensures '<' !in s ==> '<' !in Collapse(s)
    ensures forall i :: 0 <= i < |Collapse(s)| && IsSpace(Collapse(s)[i]) ==> Collapse(s)[i] == ' '
    ensures NoDoubledSpace(Collapse(s))
  {
    CollapseKeepsTagFree(s);
    CollapseBlanks(s);
    CollapseNoDoubled(s);
  }

  /** The head `Collapse` puts in front of the collapsed rest. */
  function CollapseHead(s: string): char
    requires s != []
  {
    if IsSpace(s[0]) then ' ' else s[0]
  }

  /** The text `Collapse` continues with after its first character. */
  function CollapseRest(s: string): (t: string)
    requires s != []
    ensures |t| < |s|
  {
    if IsSpace(s[0]) then DropSpaces(s) else s[1..]
  }

  lemma CollapseStep(s: string)
    requires s != []
    ensures Collapse(s) == [CollapseHead(s)] + Collapse(CollapseRest(s))
    ensures '<' !in s ==> '<' !in CollapseRest(s) && CollapseHead(s) != '<'
    ensures IsSpace(CollapseHead(s)) ==> CollapseRest(s) == [] || !IsSpace(CollapseRest(s)[0])
  {
  }

  lemma {:induction false} CollapseKeepsTagFree(s: string)
    ensures '<' !in s ==> '<' !in Collapse(s)
    decreases |s|
  {
    if s != [] && '<' !in s {
      CollapseStep(s);
      CollapseKeepsTagFree(CollapseRest(s));
    }
  }

  lemma {:induction false} CollapseBlanks(s: string)
    ensures forall i :: 0 <= i < |Collapse(s)| && IsSpace(Collapse(s)[i]) ==> Collapse(s)[i] == ' '
    decreases |s|
  {
    if s != [] {
      var r, c := Collapse(s), Collapse(CollapseRest(s));
      CollapseStep(s);
      CollapseBlanks(CollapseRest(s));
      forall i | 0 <= i < |r| && IsSpace(r[i]) ensures r[i] == ' ' {
        if i > 0 { assert r[i] == c[i - 1]; }
      }
    }
  }

  lemma {:induction false} CollapseNoDoubled(s: string)
    ensures NoDoubledSpace(Collapse(s))
    decreases |s|
  {
    if s != [] {
      var r, c := Collapse(s), Collapse(CollapseRest(s));
      CollapseStep(s);
      CollapseNoDoubled(CollapseRest(s));
      assert IsSpace(CollapseHead(s)) ==> c == [] || !IsSpace(c[0]);
      forall i, j | 0 <= i < j < |r| && j == i + 1 ensures !IsSpace(r[i]) || !IsSpace(r[j]) {
        if i > 0 { assert r[i] == c[i - 1] && r[j] == c[j - 1]; }
        else { assert r[j] == c[0]; }
      }
    }
  }


  /** Removing a prefix of white space leaves the visible text alone. */
  lemma {:induction false} DropSpacesKeepsVisible(s: string)
    ensures Visible(DropSpaces(s)) == Visible(s)
    decreases |s|
  {
    if s != [] && IsSpace(s[0]) {
      var t := s[1..];
      DropSpacesKeepsVisible(t);
      assert DropSpaces(s) == DropSpaces(t);
      assert !IsVisible(s[0]);
      assert Filter(s, IsVisible) == Filter(t, IsVisible);
    }
  }

  /** A white-space prefix in front of a non-white character (or nothing) is dropped whole. */
  lemma {:induction false} DropSpacesPrefix(w: string, b: string)
    requires AllSpace(w) && (b == [] || !IsSpace(b[0]))
    ensures DropSpaces(w + b) == b
  {
    if w == [] {
      assert w + b == b;
    } else {
      assert (w + b)[1..] == w[1..] + b;
      DropSpacesPrefix(w[1..], b);
    }
  }

  /** Leading white space is taken from `a` alone when `a` ends in a non-white character. */
  lemma {:induction false} DropSpacesConcat(a: string, x: string)
    requires a != [] && !IsSpace(a[|a| - 1])
    ensures DropSpaces(a + x) == DropSpaces(a) + x
  {
    if IsSpace(a[0]) {
      assert (a + x)[1..] == a[1..] + x;
      DropSpacesConcat(a[1..], x);
    }
  }

  /** Text that ends in a non-white character keeps that character when its leading white space goes. */
  lemma {:induction false} DropSpacesKeepsLast(a: string)
    requires a != [] && !IsSpace(a[|a| - 1])
    ensures DropSpaces(a) != [] && DropSpaces(a)[|DropSpaces(a)| - 1] == a[|a| - 1]
  {
    if IsSpace(a[0]) {
      DropSpacesKeepsLast(a[1..]);
    }
  }

  /** Text with no white space is left as it is. */
  lemma {:induction false} CollapseNoSpace(a: string)
    requires forall i :: 0 <= i < |a| ==> !IsSpace(a[i])
    ensures Collapse(a) == a
  {
    if a != [] {
      CollapseNoSpace(a[1..]);
      assert a == [a[0]] + a[1..];
    }
  }

  /** A white-space run between two non-white characters becomes exactly one space, and the text
      on either side is collapsed on its own: words stay apart. */
  lemma {:induction false} CollapseJoin(a: string, w: string, b: string)
    requires a == [] || !IsSpace(a[|a| - 1])
    requires w != [] && AllSpace(w)
    requires b == [] || !IsSpace(b[0])
    ensures Collapse(a + w + b) == Collapse(a) + " " + Collapse(b)
    decreases |a|, 1
  {
    if a == [] {
      assert a + w + b == w + b;
      assert Collapse(w + b) == " " + Collapse(b) by {
        assert (w + b)[0] == w[0];
        CollapseStep(w + b);
        DropSpacesPrefix(w, b);
      }
    } else if IsSpace(a[0]) {
      CollapseJoinAfterSpace(a, w, b);
    } else {
      CollapseJoinAfterVisible(a, w, b);
    }
  }

  lemma {:induction false} CollapseJoinAfterSpace(a: string, w: string, b: string)
    requires a != [] && IsSpace(a[0]) && !IsSpace(a[|a| - 1])
    requires w != [] && AllSpace(w)
    requires b == [] || !IsSpace(b[0])
    ensures Collapse(a + w + b) == Collapse(a) + " " + Collapse(b)
    decreases |a|, 0
  {
    var d := DropSpaces(a);
    var cd, cb := Collapse(d), Collapse(b);
    assert Collapse(a + w + b) == " " + Collapse(d + w + b) by {
      var s := a + w + b;
      ConcatAssoc(a, w, b);
      ConcatAssoc(d, w, b);
      assert s[0] == a[0];
      CollapseStep(s);
      DropSpacesConcat(a, w + b);
    }
    assert Collapse(a) == " " + cd by {
      CollapseStep(a);
    }
    assert Collapse(d + w + b) == cd + " " + cb by {
      DropSpacesKeepsLast(a);
      CollapseJoin(d, w, b);
    }
    ConcatAssoc(" ", cd + " ", cb);
    ConcatAssoc(" ", cd, " ");
  }

  lemma {:induction false} CollapseJoinAfterVisible(a: string, w: string, b: string)
    requires a != [] && !IsSpace(a[0]) && !IsSpace(a[|a| - 1])
    requires w != [] && AllSpace(w)
    requires b == [] || !IsSpace(b[0])
    ensures Collapse(a + w + b) == Collapse(a) + " " + Collapse(b)
    decreases |a|, 0
  {
    var s := a + w + b;
    var t := a[1..];
    assert s[0] == a[0] && s[1..] == t + w + b;
    assert t != [] ==> t[|t| - 1] == a[|a| - 1];
    CollapseJoin(t, w, b);
    var ct, cb := Collapse(t), Collapse(b);
    assert Collapse(s) == [a[0]] + (ct + " " + cb);
    assert Collapse(a) == [a[0]] + ct;
    ConcatAssoc([a[0]], ct + " ", cb);
    ConcatAssoc([a[0]], ct, " ");
  }



  /** Collapsing white space keeps every visible character, in order. */
  lemma {:induction false} CollapseKeepsVisible(s: string)
    ensures Visible(Collapse(s)) == Visible(s)
    decreases |s|
  {
    if s != [] {
      if IsSpace(s[0]) {
        var d := DropSpaces(s);
        CollapseKeepsVisible(d);
        FilterConcat(" ", Collapse(d), IsVisible);
        DropSpacesKeepsVisible(s);
      } else {
        CollapseKeepsVisible(s[1..]);
        FilterConcat([s[0]], Collapse(s[1..]), IsVisible);
        FilterConcat([s[0]], s[1..], IsVisible);
        assert s == [s[0]] + s[1..];
      }
    }
  }

  /** Collapsing twice is collapsing once. */
  lemma {:induction false} CollapseIdempotent(s: string)
    ensures Collapse(Collapse(s)) == Collapse(s)
    decreases |s|
  {
    if s != [] {
      var r := Collapse(s);
      if IsSpace(s[0]) {
        var d := DropSpaces(s);
        CollapseIdempotent(d);
        assert r == " " + Collapse(d);
        assert r[1..] == Collapse(d);
        assert DropSpaces(r) == Collapse(d) by {
          assert DropSpaces(r) == DropSpaces(r[1..]);
        }
      } else {
        CollapseIdempotent(s[1..]);
        assert r[1..] == Collapse(s[1..]);
      }
    }
  }

  // ---------------------------------------------------------------- trim()

  /** The text without its trailing white space (`trimEnd`). */
  function TrimEnd(s: string): (r: string)
    ensures |r| <= |s| && r == s[..|r|]
    ensures AllSpace(s[|r|..])
    ensures r != [] ==> !IsSpace(r[|r| - 1])
  {
    if s != [] && IsSpace(s[|s| - 1]) then TrimEnd(s[..|s| - 1]) else s
  }

  /** White space removed from both ends (`trim`): the result neither starts nor ends with white space. */
  function Trim(s: string): (r: string)
    ensures |r| <= |s|
    ensures r != [] ==> !IsSpace(r[0]) && !IsSpace(r[|r| - 1])
  {
    TrimEnd(DropSpaces(s))
  }

  /** The trimmed text is the slice `s[i..j]` between two all-white-space ends. */
  lemma TrimIsSlice(s: string)
    ensures exists i, j :: 0 <= i <= j <= |s| && Trim(s) == s[i..j] && AllSpace(s[..i]) && AllSpace(s[j..])
  {
    var d := DropSpaces(s);
    var r := TrimEnd(d);
    var i := |s| - |d|;
    var j := i + |r|;
    assert Trim(s) == s[i..j] by {
      assert d == s[i..] && r == d[..|r|];
    }
    assert AllSpace(s[..i]);
    assert AllSpace(s[j..]) by {
      assert s[j..] == d[|r|..];
    }
  }


  /** Removing trailing white space leaves the visible text alone. */
  lemma {:induction false} TrimEndKeepsVisible(s: string)
    ensures Visible(TrimEnd(s)) == Visible(s)
    decreases |s|
  {
    if s != [] && IsSpace(s[|s| - 1]) {
      var init, last := s[..|s| - 1], [s[|s| - 1]];
      TrimEndKeepsVisible(init);
      assert s == init + last;
      FilterConcat(init, last, IsVisible);
      assert Filter(last, IsVisible) == [];
    }
  }

  /** Trimming keeps every visible character, in order. */
  lemma TrimKeepsVisible(s: string)
    ensures Visible(Trim(s)) == Visible(s)
  {
    assert Trim(s) == TrimEnd(DropSpaces(s));
    TrimEndKeepsVisible(DropSpaces(s));
    DropSpacesKeepsVisible(s);
  }


  // ---------------------------------------------------------------- the preview

  /** A slice of collapsed, tag-free text between white-space ends keeps its shape. */
  lemma TrimOfCollapsedIsTidy(c: string)
    requires '<' !in c
    requires forall k :: 0 <= k < |c| && IsSpace(c[k]) ==> c[k] == ' '
    requires NoDoubledSpace(c)
    ensures Tidy(Trim(c))
  {
    var r := Trim(c);
    var d := DropSpaces(c);
    var i := |c| - |d|;
    var j := i + |r|;
    assert r == c[i..j] by {
      assert r == TrimEnd(d) && d == c[i..] && r == d[..|r|];
    }
    SliceKeepsSpacing(c, i, j);
    assert '<' !in r by {
      forall k | 0 <= k < |r| ensures r[k] != '<' { assert r[k] == c[i + k]; }
    }
  }

  /** A slice keeps single spaces as the only white space, never doubled. */
  lemma SliceKeepsSpacing(c: string, i: nat, j: nat)
    requires i <= j <= |c|
    requires forall k :: 0 <= k < |c| && IsSpace(c[k]) ==> c[k] == ' '
    requires NoDoubledSpace(c)
    ensures forall k :: 0 <= k < |c[i..j]| && IsSpace(c[i..j][k]) ==> c[i..j][k] == ' '
    ensures NoDoubledSpace(c[i..j])
  {
    var r := c[i..j];
    forall k | 0 <= k < |r| && IsSpace(r[k]) ensures r[k] == ' ' { assert r[k] == c[i + k]; }
    forall k, l | 0 <= k < l < |r| && l == k + 1 ensures !IsSpace(r[k]) || !IsSpace(r[l]) {
      assert r[k] == c[i + k] && r[l] == c[i + l];
    }
  }

  /** The note's HTML reduced to plain one-line text. */
  function Cleaned(html: string): (r: string)
    ensures Tidy(r)
  {
    var c := Collapse(StripTags(html));
    CollapseShape(StripTags(html));
    TrimOfCollapsedIsTidy(c);
    Trim(c)
  }

  /** Cleaning keeps exactly the visible characters of the tag-stripped text, in order. */
  lemma CleanedKeepsVisible(html: string)
    ensures Visible(Cleaned(html)) == Visible(StripTags(html))
  {
    TrimKeepsVisible(Collapse(StripTags(html)));
    CollapseKeepsVisible(StripTags(html));
  }

  /** Cleaning gives the empty text exactly when the tag-stripped note is all white space. */
  lemma CleanedEmptyIff(html: string)
    ensures Cleaned(html) == [] <==> AllSpace(StripTags(html))
  {
    var r := Cleaned(html);
    CleanedKeepsVisible(html);
    InvisibleIffAllSpace(StripTags(html));
    InvisibleIffAllSpace(r);
  }

  /** Trimming leaves text alone that neither starts nor ends with white space. */
  lemma TrimNoEnds(s: string)
    requires s != [] && !IsSpace(s[0]) && !IsSpace(s[|s| - 1])
    ensures Trim(s) == s
  {
    assert DropSpaces(s) == s;
    assert TrimEnd(s) == s;
  }

  /** Two words separated by any white-space run come out as the two words and one space. */
  lemma CleanedSeparatesWords(a: string, w: string, b: string)
    requires a != [] && b != [] && w != []
    requires forall i :: 0 <= i < |a| ==> !IsSpace(a[i]) && a[i] != '<'
    requires forall i :: 0 <= i < |b| ==> !IsSpace(b[i]) && b[i] != '<'
    requires AllSpace(w)
    ensures Cleaned(a + w + b) == a + " " + b
  {
    var s := a + w + b;
    assert '<' !in s by {
      forall i | 0 <= i < |s| ensures s[i] != '<' {
        if i < |a| { assert s[i] == a[i]; }
        else if i < |a| + |w| { assert s[i] == w[i - |a|] && IsSpace(w[i - |a|]); }
        else { assert s[i] == b[i - |a| - |w|]; }
      }
    }
    StripTagsIdentity(s);
    var j := a + " " + b;
    assert Collapse(s) == j by {
      CollapseJoin(a, w, b);
      CollapseNoSpace(a);
      CollapseNoSpace(b);
    }
    assert Trim(j) == j by {
      assert j[0] == a[0] && j[|j| - 1] == b[|b| - 1];
      TrimNoEnds(j);
    }
    assert Cleaned(s) == Trim(Collapse(StripTags(s)));
  }

  /** Text has nothing visible exactly when it is all white space. */
  lemma {:induction false} InvisibleIffAllSpace(s: string)
    ensures Visible(s) == [] <==> AllSpace(s)
  {
    if s != [] {
      InvisibleIffAllSpace(s[1..]);
      assert s == [s[0]] + s[1..];
      FilterConcat([s[0]], s[1..], IsVisible);
      assert AllSpace(s) <==> IsSpace(s[0]) && AllSpace(s[1..]);
    }
  }

  /** Cutting tidy text and adding an ellipsis keeps it tidy. */
  lemma TruncatedIsTidy(c: string)
    requires Tidy(c) && |c| > PreviewLength
    ensures Tidy(c[..PreviewLength] + "...")
  {
    var p := c[..PreviewLength] + "...";
    assert forall i :: 0 <= i < PreviewLength ==> p[i] == c[i];
    assert forall i :: PreviewLength <= i < |p| ==> p[i] == '.';
  }

  /** `getNotePreview(nodeId)` over the loaded notes (node id to HTML). */
  function Preview(notes: map<string, string>, nodeId: string): (r: Option<string>)
    ensures r.Some? ==> Tidy(r.value) && 0 < |r.value| <= PreviewLength + 3
  {
    if nodeId !in notes || notes[nodeId] == "" then None
    else
      var c := Cleaned(notes[nodeId]);
      if |c| == 0 then None
      else if |c| > PreviewLength then
        TruncatedIsTidy(c);
        Some(c[..PreviewLength] + "...")
      else Some(c)
  }

  /** No preview exactly for a missing or empty note, or one with nothing visible once its tags are gone;
      otherwise the cleaned text itself when it fits, else its first 40 characters and "...". */
  lemma PreviewCases(notes: map<string, string>, nodeId: string)
    ensures Preview(notes, nodeId).None? <==>
      nodeId !in notes || notes[nodeId] == "" || AllSpace(StripTags(notes[nodeId]))
    ensures Preview(notes, nodeId).Some? ==>
      var c := Cleaned(notes[nodeId]);
      var p := Preview(notes, nodeId).value;
      && (|c| <= PreviewLength ==> p == c)
      && (|c| > PreviewLength ==> |p| == PreviewLength + 3 && p[..PreviewLength] == c[..PreviewLength] && p[PreviewLength..] == "...")
  {
    if nodeId in notes && notes[nodeId] != "" {
      CleanedEmptyIff(notes[nodeId]);
    }
  }
}
