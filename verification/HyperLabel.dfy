/** The caption of a hyperlink control: the text between "<A>" and "</A>", case ignored, is the link. */
module HyperLabel {
  import opened Common
  import opened TextSearch

  const OPEN_TAG: string := "<A>"
  const CLOSE_TAG: string := "</A>"

  /** A pointer into the caption, if it was set, and a count. */
  datatype Part = Part(at: Option<nat>, cch: nat)

  datatype Parts = Parts(left: Part, link: Part, right: Part)

  const NO_PART: Part := Part(None, 0)

  /** The characters a part refers to. */
  function TextOf(caption: seq<char>, p: Part): seq<char>
    requires p.at.Some? ==> p.at.value + p.cch <= |caption|
  {
    if p.at.None? then [] else caption[p.at.value..p.at.value + p.cch]
  }

  /** CompareString with NORM_IGNORECASE on as many characters as the tag has. */
  predicate TagAt(caption: seq<char>, i: nat, tag: string) { MatchAt(caption, tag, false, i) }

  /** The parts of a caption: the first opening tag splits off the left part, the first closing tag behind it ends the
      link. Empty left and right parts are not set, and without a closing tag the link has no characters. */
  function Split(caption: seq<char>): Parts {
    var o := FirstMatch(caption, OPEN_TAG, false, 0, |caption|);
    if o.None? then Parts(NO_PART, NO_PART, NO_PART)
    else
      var left := if o.value > 0 then Part(Some(0), o.value) else NO_PART;
      var start := o.value + 3;
      var c := FirstMatch(caption, CLOSE_TAG, false, start, |caption|);
      if c.None? then Parts(left, Part(Some(start), 0), NO_PART)
      else Parts(left, Part(Some(start), c.value - start),
                 if c.value + 4 < |caption| then Part(Some(c.value + 4), |caption| - (c.value + 4)) else NO_PART)
  }

  /** Tags begin with '<' and hold no other one. */
  lemma TagShape(caption: seq<char>, i: nat, tag: string)
    requires (tag == OPEN_TAG || tag == CLOSE_TAG) && TagAt(caption, i, tag)
    ensures caption[i] == '<' && forall p :: i < p < i + |tag| ==> caption[p] != '<'
  {
    AgreeAt(caption, tag, false, i, |tag|);
    assert Fold(caption[i], false) == Fold(tag[0], false);
    forall p | i < p < i + |tag| ensures caption[p] != '<' {
      var k := p - i;
      assert Fold(caption[i + k], false) == Fold(tag[k], false) && tag[k] != '<';
    }
  }

  /** Where there is no '<' the search for a tag can step on. */
  lemma StepOver(caption: seq<char>, i: nat, tag: string)
    requires (tag == OPEN_TAG || tag == CLOSE_TAG) && i < |caption| && (caption[i] != '<' || !TagAt(caption, i, tag))
    ensures FirstMatch(caption, tag, false, i, |caption|) == FirstMatch(caption, tag, false, i + 1, |caption|)
  {
    if TagAt(caption, i, tag) { TagShape(caption, i, tag); }
  }

  /** The scan is inside the link that opened at `o` and has seen no closing tag before `i`. */
  ghost predicate InLink(caption: seq<char>, o: nat, i: nat, left: Part, link: Part, right: Part) {
    && o + 3 <= |caption| && o < i <= |caption|
    && FirstMatch(caption, OPEN_TAG, false, 0, |caption|) == Some(o)
    && caption[o + 1] != '<' && caption[o + 2] != '<'
    && left == (if o > 0 then Part(Some(0), o) else NO_PART) && link == Part(Some(o + 3), 0) && right == NO_PART
    && FirstMatch(caption, CLOSE_TAG, false, o + 3, |caption|) == FirstMatch(caption, CLOSE_TAG, false, if i < o + 3 then o + 3 else i, |caption|)
  }

  method CalcLabelParts(caption: seq<char>) returns (parts: Parts)
    ensures parts == Split(caption)
  {
    var left, link, right := NO_PART, NO_PART, NO_PART;
    var outsideLink := true;
    var i := 0;
    ghost var o, closed := 0, false;
    while i < |caption|
      invariant 0 <= i <= |caption|
      invariant outsideLink ==>
                  !closed && left == NO_PART && link == NO_PART && right == NO_PART
                  && FirstMatch(caption, OPEN_TAG, false, 0, |caption|) == FirstMatch(caption, OPEN_TAG, false, i, |caption|)
      invariant !outsideLink && !closed ==> InLink(caption, o, i, left, link, right)
      invariant closed ==> Parts(left, link, right) == Split(caption) && forall k :: i <= k < |caption| ==> caption[k] != '<'
    {
      if caption[i] == '<' {
        if outsideLink {
          if TagAt(caption, i, OPEN_TAG) {
            if i > 0 {
              left := Part(Some(0), i);
            }
            link := Part(Some(i + 3), 0);
            outsideLink := false;
            o := i;
            TagShape(caption, i, OPEN_TAG);
          } else {
            StepOver(caption, i, OPEN_TAG);
          }
        } else {
          if TagAt(caption, i, CLOSE_TAG) {
            TagShape(caption, i, CLOSE_TAG);
            link := link.(cch := i - 3 - left.cch);
            if i + 4 < |caption| {
              right := Part(Some(i + 4), |caption| - (i + 4));
              break;
            }
            closed := true;
          } else {
            StepOver(caption, i, CLOSE_TAG);
          }
        }
      } else if outsideLink {
        StepOver(caption, i, OPEN_TAG);
      } else if !closed && i >= o + 3 {
        StepOver(caption, i, CLOSE_TAG);
      }
      i := i + 1;
    }
    parts := Parts(left, link, right);
  }

  // ---------- parsing inverts printing ----------

  ghost predicate Holds(s: seq<char>, tag: string) { exists i: nat :: TagAt(s, i, tag) }

  /** A tag can neither begin before the place where another tag begins and reach into it, nor be missed there. */
  lemma FirstTagIs(caption: seq<char>, lo: nat, n: nat, tag: string)
    requires (tag == OPEN_TAG || tag == CLOSE_TAG) && lo <= n && n + |tag| <= |caption|
    requires TagAt(caption, n, tag) && !Holds(caption[lo..n], tag)
    ensures FirstMatch(caption, tag, false, lo, |caption|) == Some(n)
  {
    FirstMatchIsFirst(caption, tag, false, lo, |caption|);
    TagShape(caption, n, tag);
    var m := FirstMatch(caption, tag, false, lo, |caption|);
    if m.Some? && m.value < n {
      if m.value + |tag| <= n {
        SliceMatch(caption, lo, n, m.value - lo, tag);
      } else {
        TagShape(caption, m.value, tag);
      }
    }
  }

  lemma SliceMatch(caption: seq<char>, lo: nat, hi: nat, i: nat, tag: string)
    requires lo + i + |tag| <= hi <= |caption|
    ensures TagAt(caption[lo..hi], i, tag) == TagAt(caption, lo + i, tag)
  {
    SliceSame(caption, lo, hi, i, |tag|);
    MatchShift(caption[lo..hi], i, caption, lo + i, tag, false);
  }

  lemma {:induction false} SliceSame(s: seq<char>, lo: nat, hi: nat, i: nat, n: nat)
    requires lo + i + n <= hi <= |s|
    ensures SameChars(s[lo..hi], i, s, lo + i, n)
    decreases n
  {
    if n > 0 { SliceSame(s, lo, hi, i + 1, n - 1); }
  }

  /** A caption printed from three parts, with tags in any case, parses back to exactly those parts, as long as the
      left part holds no opening tag and the link no closing one. */
  lemma ParseInvertsPrint(left: seq<char>, open: seq<char>, link: seq<char>, close: seq<char>, right: seq<char>)
    requires SameText(open, OPEN_TAG, false) && SameText(close, CLOSE_TAG, false)
    requires !Holds(left, OPEN_TAG) && !Holds(link, CLOSE_TAG)
    ensures var caption, parts := left + open + link + close + right, Split(left + open + link + close + right);
            && parts.left == (if left == [] then NO_PART else Part(Some(0), |left|)) && TextOf(caption, parts.left) == left
            && parts.link.at == Some(|left| + 3) && parts.link.cch == |link| && TextOf(caption, parts.link) == link
            && parts.right.cch == |right| && TextOf(caption, parts.right) == right
  {
    var caption := left + open + link + close + right;
    var o, c := |left|, |left| + 3 + |link|;
    Printed(left, open, link, close, right);
    TagFromText(caption, o, open, OPEN_TAG);
    TagFromText(caption, c, close, CLOSE_TAG);
    FirstTagIs(caption, 0, o, OPEN_TAG);
    FirstTagIs(caption, o + 3, c, CLOSE_TAG);
  }

  lemma Printed(left: seq<char>, open: seq<char>, link: seq<char>, close: seq<char>, right: seq<char>)
    requires |open| == 3 && |close| == 4
    ensures var caption, c := left + open + link + close + right, |left| + 3 + |link|;
            && |caption| == c + 4 + |right| && caption[0..|left|] == left && caption[|left|..|left| + 3] == open
            && caption[|left| + 3..c] == link && caption[c..c + 4] == close && caption[c + 4..c + 4 + |right|] == right
  {
  }

  lemma TagFromText(caption: seq<char>, i: nat, s: seq<char>, tag: string)
    requires SameText(s, tag, false) && i + |s| <= |caption| && caption[i..i + |s|] == s
    ensures TagAt(caption, i, tag)
  {
    AgreeAt(caption, tag, false, i, |tag|);
    forall k | 0 <= k < |tag| ensures Fold(caption[i + k], false) == Fold(tag[k], false) {
      assert s[k] == caption[i..i + |s|][k];
    }
  }

  /** Whenever both tags are found, the parts and the tags tile the caption. */
  lemma PartsTileLabel(caption: seq<char>, o: nat, c: nat)
    requires FirstMatch(caption, OPEN_TAG, false, 0, |caption|) == Some(o)
    requires FirstMatch(caption, CLOSE_TAG, false, o + 3, |caption|) == Some(c)
    ensures var parts := Split(caption);
            && parts.left.cch == o && parts.link == Part(Some(o + 3), c - (o + 3)) && parts.right.cch == |caption| - (c + 4)
            && caption == TextOf(caption, parts.left) + caption[o..o + 3] + TextOf(caption, parts.link)
                          + caption[c..c + 4] + TextOf(caption, parts.right)
  {
    var parts := Split(caption);
    assert parts == Parts(if o > 0 then Part(Some(0), o) else NO_PART, Part(Some(o + 3), c - (o + 3)),
                          if c + 4 < |caption| then Part(Some(c + 4), |caption| - (c + 4)) else NO_PART);
    PartTexts(caption, o, c, parts);
    Tiles(caption, o, c);
  }

  lemma PartTexts(s: seq<char>, o: nat, c: nat, parts: Parts)
    requires o + 3 <= c && c + 4 <= |s|
    requires parts == Parts(if o > 0 then Part(Some(0), o) else NO_PART, Part(Some(o + 3), c - (o + 3)),
                            if c + 4 < |s| then Part(Some(c + 4), |s| - (c + 4)) else NO_PART)
    ensures TextOf(s, parts.left) == s[0..o] && TextOf(s, parts.link) == s[o + 3..c] && TextOf(s, parts.right) == s[c + 4..|s|]
  {
  }

  lemma Tiles(s: seq<char>, o: nat, c: nat)
    requires o + 3 <= c && c + 4 <= |s|
    ensures s == s[0..o] + s[o..o + 3] + s[o + 3..c] + s[c..c + 4] + s[c + 4..|s|]
  {
    assert s == s[0..c + 4] + s[c + 4..|s|];
    assert s[0..c + 4] == s[0..c] + s[c..c + 4];
    assert s[0..c] == s[0..o + 3] + s[o + 3..c];
    assert s[0..o + 3] == s[0..o] + s[o..o + 3];
  }

  // ---------- captions that are not printed from parts ----------

  /** The tags, letter by letter. */
  lemma TagChars(caption: seq<char>, i: nat)
    ensures TagAt(caption, i, OPEN_TAG)
            <==> i + 3 <= |caption| && caption[i] == '<' && (caption[i + 1] == 'A' || caption[i + 1] == 'a') && caption[i + 2] == '>'
    ensures TagAt(caption, i, CLOSE_TAG)
            <==> i + 4 <= |caption| && caption[i] == '<' && caption[i + 1] == '/'
                 && (caption[i + 2] == 'A' || caption[i + 2] == 'a') && caption[i + 3] == '>'
  {
    if i + 3 <= |caption| { ThreeChars(caption, i); }
    if i + 4 <= |caption| { FourChars(caption, i); }
  }

  lemma ThreeChars(caption: seq<char>, i: nat)
    requires i + 3 <= |caption|
    ensures Agree(caption, OPEN_TAG, false, i, 3)
            <==> caption[i] == '<' && (caption[i + 1] == 'A' || caption[i + 1] == 'a') && caption[i + 2] == '>'
  {
    assert Agree(caption, OPEN_TAG, false, i, 1) <==> caption[i] == '<';
    assert Agree(caption, OPEN_TAG, false, i, 2) <==> caption[i] == '<' && (caption[i + 1] == 'A' || caption[i + 1] == 'a');
  }

  lemma FourChars(caption: seq<char>, i: nat)
    requires i + 4 <= |caption|
    ensures Agree(caption, CLOSE_TAG, false, i, 4)
            <==> caption[i] == '<' && caption[i + 1] == '/' && (caption[i + 2] == 'A' || caption[i + 2] == 'a') && caption[i + 3] == '>'
  {
    assert Agree(caption, CLOSE_TAG, false, i, 1) <==> caption[i] == '<';
    assert Agree(caption, CLOSE_TAG, false, i, 2) <==> caption[i] == '<' && caption[i + 1] == '/';
    assert Agree(caption, CLOSE_TAG, false, i, 3)
           <==> caption[i] == '<' && caption[i + 1] == '/' && (caption[i + 2] == 'A' || caption[i + 2] == 'a');
  }

  /** Without an opening tag no part is set. */
  lemma NoOpeningTag(caption: seq<char>)
    requires forall i: nat :: !TagAt(caption, i, OPEN_TAG)
    ensures Split(caption) == Parts(Part(None, 0), Part(None, 0), Part(None, 0))
  {
    FirstTagIsThere(caption, 0, OPEN_TAG);
  }

  /** Without a closing tag behind the first opening one the text before it is the left part, and the link is empty. */
  lemma NoClosingTag(caption: seq<char>, o: nat)
    requires TagAt(caption, o, OPEN_TAG) && forall i: nat :: i < o ==> !TagAt(caption, i, OPEN_TAG)
    requires forall i: nat :: i >= o + 3 ==> !TagAt(caption, i, CLOSE_TAG)
    ensures Split(caption) == Parts(if o == 0 then Part(None, 0) else Part(Some(0), o), Part(Some(o + 3), 0), Part(None, 0))
  {
    FirstTagIsThere(caption, 0, OPEN_TAG);
    FirstTagIsThere(caption, o + 3, CLOSE_TAG);
  }

  lemma FirstTagIsThere(caption: seq<char>, lo: nat, tag: string)
    requires |tag| > 0
    ensures var m := FirstMatch(caption, tag, false, lo, |caption|);
            && (m.Some? ==> TagAt(caption, m.value, tag))
            && forall i: nat :: TagAt(caption, i, tag) && lo <= i ==> m.Some? && m.value <= i
  {
    FirstMatchIsFirst(caption, tag, false, lo, |caption|);
  }
}
