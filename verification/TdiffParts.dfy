/** What the other forms of a part are read as (src/libcoopy_full/PatchParser.cpp): a cell with a name before it,
    and a change with the parent's value before it. */
module TdiffParts {
  import opened Common
  import opened Tdiff
  import opened TdiffRoundTrip

  function MarkOf(sep: Sep): char
    requires sep == Colon || sep == Equals
  {
    if sep == Colon then ':' else '='
  }

  // ---------------------------------------------------------------------------
  // A cell before a colon or an equals sign

  lemma CutAtMark(w: string, ch: char, r: string)
    ensures var s := w + ([ch] + r); s[..|w|] == w && |w| + 1 <= |s| && s[|w| + 1..] == r
  {
  }

  lemma ScanBeforeMark(k: Cell, sep: Sep, r: string)
    requires (sep == Colon || sep == Equals) && !RunsIntoArrow(k)
    ensures var stop := Scan(Unpeeled, Raw(k) + ([MarkOf(sep)] + r));
      stop.sep == sep && stop.peeler.n == |Raw(k)| + 1 && stop.peeler.hasQuote == IsQuoted(k) && !stop.peeler.conflict
  {
    hide Scan, Quiet;
    ScanRaw(Unpeeled, k, [MarkOf(sep)] + r);
    if !IsQuoted(k) {
      RawIsQuiet(k);
    }
    ScanOne(PastRaw(Unpeeled, k), MarkOf(sep), r);
  }

  lemma PeelBeforeMark(k: Cell, sep: Sep, r: string)
    requires (sep == Colon || sep == Equals) && !RunsIntoArrow(k)
    ensures Peel(Raw(k) + ([MarkOf(sep)] + r)) == Peeled(Content(k), sep, r, IsQuoted(k), false)
  {
    hide Scan, Quiet, Raw, Replace, Content, IsQuoted, RunsIntoArrow, Stripped, MarkOf;
    ScanBeforeMark(k, sep, r);
    RawContent(k);
    RawHead(k);
    CutAtMark(Raw(k), MarkOf(sep), r);
  }

  /** A name that ends in an odd number of dashes swallows the sign. */
  lemma PeelSwallows(k: Cell, sep: Sep, c: Cell)
    requires (sep == Colon || sep == Equals) && RunsIntoArrow(k)
    ensures Peel(Raw(k) + ([MarkOf(sep)] + Raw(c))).sep == Nothing
  {
    hide Scan, Quiet, Raw, Replace;
    var p, ch := PastRaw(Unpeeled, k), MarkOf(sep);
    ScanRaw(Unpeeled, k, [ch] + Raw(c));
    RawIsQuiet(k);
    ScanOne(p, ch, Raw(c));
    ScanRaw(Move(p, ch), c, "");
    assert Raw(c) + "" == Raw(c);
    ScanNone(PastRaw(Move(p, ch), c));
  }

  // ---------------------------------------------------------------------------
  // What stands after it

  predicate Fresh(q: Part) {
    q.val == None && q.nval == None && !q.isFresh && !q.isId
  }

  /** What a value says after `pre`. */
  function WithValue(q: Part, pre: Sep, c: Cell): Part {
    q.(val := Kept(c), isId := pre == Equals)
  }

  lemma ReadValue(q: Part, pre: Sep, c: Cell, most: nat)
    requires Fresh(q) && (pre == Nothing || pre == Colon || pre == Equals) && most > 0
    ensures Elements(q, Raw(c), pre, false, most) == WithValue(q, pre, c)
  {
    PeelAlone(c);
    hide Peel, Raw, Content, IsQuoted;
    ElementsNext(q, Raw(c), pre, false, most);
  }

  lemma ReadChange(q: Part, pre: Sep, c: Cell, d: Cell, most: nat)
    requires Fresh(q) && (pre == Nothing || pre == Colon || pre == Equals) && most > 1 && !RunsIntoArrow(c)
    ensures Elements(q, Raw(c) + ("->" + Raw(d)), pre, false, most) ==
            WithValue(q, pre, c).(nval := Kept(d), isFresh := Kept(c).None?)
  {
    PeelBefore(c, Raw(d));
    PeelAlone(d);
    hide Peel, Raw, Content, IsQuoted, RunsIntoArrow;
    ElementsNext(q, Raw(c) + ("->" + Raw(d)), pre, false, most);
    ElementsNext(WithValue(q, pre, c), Raw(d), Arrow, false, most - 1);
  }

  // ---------------------------------------------------------------------------
  // Parts with a name

  /** A name, a colon or an equals sign, and a cell are read as that name and that cell, and as an identity exactly for
      the equals sign, if and only if the name does not end in an odd number of dashes outside quotes. */
  lemma NamedValue(k: Cell, sep: Sep, c: Cell)
    requires sep == Colon || sep == Equals
    ensures var part := Reading(Raw(k) + ([MarkOf(sep)] + Raw(c)));
            part == Blank.(key := Some(Content(k)), isId := sep == Equals, val := Kept(c)) <==> !RunsIntoArrow(k)
  {
    hide Peel, Raw, Elements, Content, RunsIntoArrow, IsQuoted;
    var s := Raw(k) + ([MarkOf(sep)] + Raw(c));
    ElementsNext(Blank, s, Nothing, false, 4);
    if RunsIntoArrow(k) {
      PeelSwallows(k, sep, c);
    } else {
      PeelBeforeMark(k, sep, Raw(c));
      ReadValue(Blank.(key := Some(Content(k))), sep, c, 3);
    }
  }

  /** The same with a change after the name. */
  lemma NamedChange(k: Cell, sep: Sep, c: Cell, d: Cell)
    requires (sep == Colon || sep == Equals) && !RunsIntoArrow(k) && !RunsIntoArrow(c)
    ensures Reading(Raw(k) + ([MarkOf(sep)] + (Raw(c) + ("->" + Raw(d))))) ==
            Blank.(key := Some(Content(k)), isId := sep == Equals, val := Kept(c), nval := Kept(d),
                   isFresh := Kept(c).None?)
  {
    hide Peel, Raw, Elements, Content, RunsIntoArrow, IsQuoted;
    var r := Raw(c) + ("->" + Raw(d));
    ElementsNext(Blank, Raw(k) + ([MarkOf(sep)] + r), Nothing, false, 4);
    PeelBeforeMark(k, sep, r);
    ReadChange(Blank.(key := Some(Content(k))), sep, c, d, 3);
  }

  /** In a list of columns only the name counts, and the sign after it. */
  lemma NamedColumn(k: Cell, sep: Sep, c: Cell)
    requires (sep == Colon || sep == Equals) && !RunsIntoArrow(k)
    ensures PartOf(Raw(k) + ([MarkOf(sep)] + Raw(c)), true, None) ==
            Blank.(key := Some(Content(k)), isId := sep == Equals)
  {
    hide Peel, Raw, Elements, Content, RunsIntoArrow, IsQuoted;
    ElementsNext(Blank, Raw(k) + ([MarkOf(sep)] + Raw(c)), Nothing, true, 4);
    PeelBeforeMark(k, sep, Raw(c));
    PeelAlone(c);
    ElementsNext(Blank.(key := Some(Content(k))), Raw(c), sep, true, 3);
  }

  // ---------------------------------------------------------------------------
  // Conflicts

  lemma ScanParent(p: Cell, r: string)
    ensures var stop := Scan(Unpeeled, ['!'] + (Raw(p) + (['!'] + r)));
      stop.sep == Bang && stop.peeler.n == |Raw(p)| + 2 && stop.peeler.hasQuote == IsQuoted(p) && stop.peeler.conflict
  {
    hide Scan, Quiet;
    ScanOne(Unpeeled, '!', Raw(p) + (['!'] + r));
    var seen := Move(Unpeeled, '!');
    ScanRaw(seen, p, ['!'] + r);
    if !IsQuoted(p) {
      RawIsQuiet(p);
    }
    ScanOne(PastRaw(seen, p), '!', r);
  }

  lemma CutParent(w: string, r: string)
    ensures var s := ['!'] + (w + (['!'] + r)); s[..|w| + 1] == ['!'] + w && |w| + 2 <= |s| && s[|w| + 2..] == r
    ensures (['!'] + w)[1..] == w
  {
  }

  lemma PeelParent(p: Cell, r: string)
    ensures Peel(['!'] + (Raw(p) + (['!'] + r))) == Peeled(Content(p), Bang, r, IsQuoted(p), true)
  {
    hide Scan, Quiet, Raw, Replace, Content, IsQuoted, RunsIntoArrow, Stripped;
    ScanParent(p, r);
    RawContent(p);
    CutParent(Raw(p), r);
  }

  /** A parent's value between bangs before a change makes it a conflict: the new value is the one in conflict, and the
      old value, where there is one, stands in its place. */
  lemma ParentBeforeChange(p: Cell, c: Cell, d: Cell)
    requires !RunsIntoArrow(c)
    ensures Reading(['!'] + (Raw(p) + (['!'] + (Raw(c) + ("->" + Raw(d)))))) ==
            Blank.(conflict := true, pval := Kept(p), val := Kept(c), cval := Kept(d), isFresh := Kept(c).None?,
                   nval := if Kept(d).None? then None else if Kept(c).Some? then Kept(c) else Kept(d))
  {
    hide Peel, Raw, Elements, Content, RunsIntoArrow, IsQuoted;
    var r := Raw(c) + ("->" + Raw(d));
    ElementsNext(Blank, ['!'] + (Raw(p) + (['!'] + r)), Nothing, false, 4);
    PeelParent(p, r);
    ReadChange(Blank.(conflict := true, pval := Kept(p)), Nothing, c, d, 3);
  }
}
