/**
 Caret placement (the caret effect of the typing-test component).

 The rendered layout is abstracted as the container's rectangle and one
 rectangle per rendered glyph; the caret is placed by four tiers tried in
 order, and is reported relative to the container's top-left corner.
 */
module Caret {

  /** An axis-aligned rectangle in page coordinates. */
  datatype Rect = Rect(left: real, top: real, width: real, height: real)
  {
    function Right(): real { left + width }
  }

  /** Caret placement relative to the text container. */
  datatype CaretPos = CaretPos(top: real, left: real, height: real)

  /** Which rule placed the caret. */
  datatype Tier = AtNext | AfterPrevious | AtFirst | AtOrigin

  /** Glyph height assumed when nothing is rendered. */
  const DefaultHeight: real := 24.0

  /** Width of the caret rectangle (not part of the reported position). */
  const CaretWidth: real := 2.0

  /** The rule that applies for the next index `index` in a passage of `passageLen` characters. */
  function SelectTier(index: nat, passageLen: nat, glyphCount: nat): Tier
  {
    if index < passageLen && index < glyphCount then AtNext
    else if index > 0 && index - 1 < glyphCount then AfterPrevious
    else if glyphCount > 0 then AtFirst
    else AtOrigin
  }

  /** The caret rectangle in page coordinates. */
  function Anchor(index: nat, passageLen: nat, glyphs: seq<Rect>, container: Rect): Rect
  {
    match SelectTier(index, passageLen, |glyphs|)
    case AtNext => glyphs[index]
    case AfterPrevious => Rect(glyphs[index - 1].Right(), glyphs[index - 1].top, CaretWidth, glyphs[index - 1].height)
    case AtFirst => Rect(glyphs[0].left, glyphs[0].top, CaretWidth, glyphs[0].height)
    case AtOrigin => Rect(container.left, container.top, CaretWidth, DefaultHeight)
  }

  /** `r` expressed relative to the container's top-left corner. */
  function Relative(r: Rect, container: Rect): CaretPos
  {
    CaretPos(r.top - container.top, r.left - container.left, r.height)
  }

  /**
   Where the caret is drawn when `index` characters have been typed:
   on the next glyph if it is rendered, else just right of the previous
   glyph, else at the first glyph's left edge, else at the container's
   origin with the default height.
   */
  function Locate(index: nat, passageLen: nat, glyphs: seq<Rect>, container: Rect): (p: CaretPos)
    ensures index < passageLen && index < |glyphs| ==> p == Relative(glyphs[index], container)
    ensures !(index < passageLen && index < |glyphs|) && 0 < index <= |glyphs| ==>
              p == CaretPos(glyphs[index - 1].top - container.top,
                            glyphs[index - 1].Right() - container.left,
                            glyphs[index - 1].height)
    ensures !(index < passageLen && index < |glyphs|) && !(0 < index <= |glyphs|) && |glyphs| > 0 ==>
              p == CaretPos(glyphs[0].top - container.top, glyphs[0].left - container.left, glyphs[0].height)
    ensures |glyphs| == 0 ==> p == CaretPos(0.0, 0.0, DefaultHeight)
  {
    Relative(Anchor(index, passageLen, glyphs, container), container)
  }

  /** Every glyph of the passage has been rendered. */
  predicate FullyRendered(passageLen: nat, glyphs: seq<Rect>)
  {
    |glyphs| == passageLen
  }

  /** Mid-passage, the caret sits on the next character to type. */
  lemma CaretOnNextChar(index: nat, passageLen: nat, glyphs: seq<Rect>, container: Rect)
    requires FullyRendered(passageLen, glyphs) && index < passageLen
    ensures Locate(index, passageLen, glyphs, container).left == glyphs[index].left - container.left
    ensures Locate(index, passageLen, glyphs, container).top == glyphs[index].top - container.top
  {
  }

  /** At the end of a non-empty passage, the caret sits just after the last character. */
  lemma CaretAfterLastChar(passageLen: nat, glyphs: seq<Rect>, container: Rect)
    requires FullyRendered(passageLen, glyphs) && passageLen > 0
    ensures Locate(passageLen, passageLen, glyphs, container).left == glyphs[passageLen - 1].Right() - container.left
    ensures Locate(passageLen, passageLen, glyphs, container).height == glyphs[passageLen - 1].height
  {
  }

  /**
   One or more characters typed beyond the end of the passage: neither the
   next nor the previous glyph exists, so the caret falls back to the
   first glyph.
   */
  lemma CaretPastEndJumpsToStart(index: nat, passageLen: nat, glyphs: seq<Rect>, container: Rect)
    requires FullyRendered(passageLen, glyphs) && passageLen > 0 && index > passageLen
    ensures SelectTier(index, passageLen, |glyphs|) == AtFirst
    ensures Locate(index, passageLen, glyphs, container).left == glyphs[0].left - container.left
  {
  }

  /** Every rule yields a positive height when every rendered glyph has one. */
  lemma CaretHeightPositive(index: nat, passageLen: nat, glyphs: seq<Rect>, container: Rect)
    requires forall g :: g in glyphs ==> g.height > 0.0
    ensures Locate(index, passageLen, glyphs, container).height > 0.0
  {
    var t := SelectTier(index, passageLen, |glyphs|);
    if t == AtNext {
      assert glyphs[index] in glyphs;
    } else if t == AfterPrevious {
      assert glyphs[index - 1] in glyphs;
    } else if t == AtFirst {
      assert glyphs[0] in glyphs;
    }
  }

  /** `r` moved by (`dx`, `dy`). */
  function Shift(r: Rect, dx: real, dy: real): Rect
  {
    r.(left := r.left + dx, top := r.top + dy)
  }

  /** Every glyph moved by (`dx`, `dy`). */
  function ShiftAll(glyphs: seq<Rect>, dx: real, dy: real): (r: seq<Rect>)
    ensures |r| == |glyphs|
    ensures forall i :: 0 <= i < |r| ==> r[i] == Shift(glyphs[i], dx, dy)
  {
    seq(|glyphs|, i requires 0 <= i < |glyphs| => Shift(glyphs[i], dx, dy))
  }

  /**
   The caret depends only on the layout relative to the container: moving
   the container and all of its glyphs together (scrolling) leaves it put.
   */
  lemma CaretTranslationInvariant(index: nat, passageLen: nat, glyphs: seq<Rect>, container: Rect, dx: real, dy: real)
    ensures Locate(index, passageLen, ShiftAll(glyphs, dx, dy), Shift(container, dx, dy))
         == Locate(index, passageLen, glyphs, container)
  {
  }
}
