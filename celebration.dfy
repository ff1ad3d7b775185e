/**
 * The emoji row of the celebration panel: the container is emptied, then one
 * element is appended per configured entry whose trimmed text is non-empty.
 */
module Celebration {
  import JsText

  /** `!char.trim()`: the entry is empty or only whitespace, and is skipped. */
  predicate Skipped(entry: string) {
    JsText.Trim(entry) == []
  }

  /** The entries the row shows, in configured order. */
  function Shown(emojis: seq<string>): seq<string> {
    if emojis == [] then []
    else
      var last := emojis[|emojis| - 1];
      Shown(emojis[..|emojis| - 1]) + (if Skipped(last) then [] else [last])
  }

  /** The row holds only non-blank configured entries, and no more of them than configured. */
  lemma {:induction false} ShownSound(emojis: seq<string>)
    ensures |Shown(emojis)| <= |emojis|
    ensures forall e :: e in Shown(emojis) ==> !Skipped(e) && e in emojis
  {
    if emojis != [] {
      ShownSound(emojis[..|emojis| - 1]);
      assert forall e :: e in emojis[..|emojis| - 1] ==> e in emojis;
    }
  }

  /** An entry is skipped exactly when it is all whitespace. */
  lemma SkippedIffBlank(entry: string)
    ensures Skipped(entry) <==> JsText.IsBlank(entry)
  {
    JsText.TrimEmptyIffBlank(entry);
  }

  /** Filtering a concatenation filters each part and keeps them in order. */
  lemma {:induction false} ShownAppend(xs: seq<string>, ys: seq<string>)
    ensures Shown(xs + ys) == Shown(xs) + Shown(ys)
    decreases |ys|
  {
    if ys != [] {
      var init, last := ys[..|ys| - 1], ys[|ys| - 1];
      var tail := if Skipped(last) then [] else [last];
      assert (xs + ys)[..|xs + ys| - 1] == xs + init;
      assert (xs + ys)[|xs + ys| - 1] == last;
      assert Shown(xs + ys) == Shown(xs + init) + tail;
      ShownAppend(xs, init);
      assert Shown(ys) == Shown(init) + tail;
    } else {
      assert xs + ys == xs;
    }
  }

  /** Each shown entry appears as often as configured; each skipped one not at all. */
  lemma {:induction false} ShownCount(emojis: seq<string>, e: string)
    ensures multiset(Shown(emojis))[e] == if Skipped(e) then 0 else multiset(emojis)[e]
  {
    if emojis != [] {
      var init, last := emojis[..|emojis| - 1], emojis[|emojis| - 1];
      assert emojis == init + [last];
      ShownCount(init, e);
    }
  }

  /** Filtering the shown entries again removes nothing. */
  lemma {:induction false} ShownIdempotent(emojis: seq<string>)
    ensures Shown(Shown(emojis)) == Shown(emojis)
  {
    if emojis != [] {
      var init, last := emojis[..|emojis| - 1], emojis[|emojis| - 1];
      ShownIdempotent(init);
      ShownAppend(Shown(init), if Skipped(last) then [] else [last]);
    }
  }

  lemma ShownSingle(e: string)
    ensures Shown([e]) == if Skipped(e) then [] else [e]
  {
    assert [e][..0] == [];
  }

  /** A lone space is skipped; the two emoji below are kept. */
  lemma SpaceSkipped()
    ensures Skipped(" ")
  {
    assert JsText.IsWhitespace(" "[0]) && " "[1..] == [];
    assert JsText.TrimStart(" ") == [];
  }

  lemma PartyPopperKept()
    ensures !Skipped("\U{1F389}")
  {
    var e := "\U{1F389}";
    assert !JsText.IsWhitespace(e[0]);
    assert JsText.TrimStart(e) == e && JsText.TrimEnd(e) == e;
  }

  lemma HeartKept()
    ensures !Skipped("\U{2764}\U{FE0F}")
  {
    var e := "\U{2764}\U{FE0F}";
    assert !JsText.IsWhitespace(e[0]) && !JsText.IsWhitespace(e[1]);
    assert JsText.TrimStart(e) == e && JsText.TrimEnd(e) == e;
  }

  /** In a three-entry row, a blank middle entry is dropped and the other two kept in order. */
  lemma {:induction false} BlankMiddleSkipped(first: string, middle: string, last: string)
    requires !Skipped(first) && Skipped(middle) && !Skipped(last)
    ensures Shown([first, middle, last]) == [first, last]
  {
    var row := [first, middle, last];
    assert row[..2] == [first, middle];
    assert [first, middle][..1] == [first];
    ShownSingle(first);
    assert Shown([first, middle]) == [first];
    assert Shown(row) == Shown([first, middle]) + [last];
  }

  /** The configured row ["🎉", " ", "❤️"] shows two entries: the blank one is skipped. */
  lemma BlankEntrySkipped()
    ensures Shown(["\U{1F389}", " ", "\U{2764}\U{FE0F}"]) == ["\U{1F389}", "\U{2764}\U{FE0F}"]
  {
    SpaceSkipped();
    PartyPopperKept();
    HeartKept();
    BlankMiddleSkipped("\U{1F389}", " ", "\U{2764}\U{FE0F}");
  }

  /** The `celebrationEmojisWrap` element's children, as their text. */
  class EmojiRow {
    var children: seq<string>

    constructor ()
      ensures children == []
    {
      children := [];
    }

    /** The emoji part of celebrate: clear the container, then append the non-blank entries. */
    method Populate(emojis: seq<string>)
      modifies this
      ensures children == Shown(emojis)
    {
      children := [];
      var i := 0;
      while i < |emojis|
        invariant 0 <= i <= |emojis|
        invariant children == Shown(emojis[..i])
      {
        assert emojis[..i + 1][..i] == emojis[..i];
        if JsText.Trim(emojis[i]) != [] {
          children := children + [emojis[i]];
        }
        i := i + 1;
      }
      assert emojis[..i] == emojis;
    }
  }
}
