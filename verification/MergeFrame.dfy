/** What a merge leaves alone: only the applied entries' lines change, and every other line
    survives in its order (internal/domain/bepinex_merge.go, lines 59 and 94-133). */
module MergeFrame {
  import opened Text
  import opened Overrides
  import opened ConfigLines
  import opened ConfigFiles
  import opened Merge

  /** xs is what is left of ys when some of its lines are deleted. */
  ghost predicate Within(xs: seq<string>, ys: seq<string>) {
    if xs == [] then true
    else if ys == [] then false
    else
      (xs[|xs| - 1] == ys[|ys| - 1] && Within(xs[..|xs| - 1], ys[..|ys| - 1]))
      || Within(xs, ys[..|ys| - 1])
  }

  lemma {:induction false} WithinItself(xs: seq<string>)
    ensures Within(xs, xs)
  {
    if xs != [] {
      WithinItself(xs[..|xs| - 1]);
    }
  }

  lemma {:induction false} WithinMore(xs: seq<string>, ys: seq<string>, more: seq<string>)
    requires Within(xs, ys)
    ensures Within(xs, ys + more)
  {
    if more == [] {
      assert ys + more == ys;
    } else {
      assert (ys + more)[..|ys + more| - 1] == ys + more[..|more| - 1];
      WithinMore(xs, ys, more[..|more| - 1]);
    }
  }

  lemma {:induction false} WithinBoth(xs: seq<string>, ys: seq<string>, tail: seq<string>)
    requires Within(xs, ys)
    ensures Within(xs + tail, ys + tail)
  {
    if tail == [] {
      assert xs + tail == xs && ys + tail == ys;
    } else {
      assert (xs + tail)[..|xs + tail| - 1] == xs + tail[..|tail| - 1];
      assert (ys + tail)[..|ys + tail| - 1] == ys + tail[..|tail| - 1];
      WithinBoth(xs, ys, tail[..|tail| - 1]);
    }
  }

  lemma {:induction false} WithinTransitive(xs: seq<string>, ys: seq<string>, zs: seq<string>)
    requires Within(xs, ys) && Within(ys, zs)
    ensures Within(xs, zs)
    decreases |zs|
  {
    if xs != [] {
      var z := zs[..|zs| - 1];
      if Within(ys, z) {
        WithinTransitive(xs, ys, z);
      } else if xs[|xs| - 1] == ys[|ys| - 1] && Within(xs[..|xs| - 1], ys[..|ys| - 1]) {
        WithinTransitive(xs[..|xs| - 1], ys[..|ys| - 1], z);
      } else {
        WithinTransitive(xs, ys[..|ys| - 1], z);
      }
    }
  }

  lemma SpliceWithin(lines: seq<string>, end: nat, add: seq<string>)
    requires end <= |lines|
    ensures Within(lines, lines[..end] + add + lines[end..])
  {
    WithinItself(lines[..end]);
    WithinMore(lines[..end], lines[..end], add);
    WithinBoth(lines[..end], lines[..end] + add, lines[end..]);
    assert lines[..end] + lines[end..] == lines;
  }

  lemma AppendSectionWithin(lines: seq<string>, known: set<string>, section: string, entries: seq<Override>)
    ensures Within(lines, AppendSection(lines, known, section, entries))
  {
    hide Within, Trim, EntryLines, HeaderLine, FindHeader, SplicePoint;
    WithinItself(lines);
    if section in known {
      var start := FindHeader(lines, section, 0);
      if start < |lines| {
        SpliceWithin(lines, SplicePoint(lines, start), EntryLines(entries));
      }
    } else {
      var base := if lines != [] && Trim(lines[|lines| - 1]) != "" then lines + [""] else lines;
      WithinMore(lines, lines, [""]);
      var tail := [HeaderLine(section)] + [""] + EntryLines(entries) + [""];
      WithinMore(lines, base, tail);
      assert base + tail == NewSection(lines, section, entries);
    }
  }

  lemma {:induction false} AppendAllWithin(lines: seq<string>, known: set<string>, pending: seq<Override>,
                                           order: seq<string>)
    ensures Within(lines, AppendAll(lines, known, pending, order))
  {
    hide Within, AppendSection, EntriesOf;
    if order == [] {
      WithinItself(lines);
    } else {
      var p, s := order[..|order| - 1], order[|order| - 1];
      var before := AppendAll(lines, known, pending, p);
      AppendAllWithin(lines, known, pending, p);
      AppendSectionWithin(before, known, s, EntriesOf(pending, s));
      WithinTransitive(lines, before, AppendAll(lines, known, pending, order));
    }
  }

  /** Line i is the one an applied override rewrites. */
  ghost predicate RewritesLine(index: Index, o: Override, i: nat) {
    o.Key() in index && index[o.Key()].lineIndex == i && Trim(index[o.Key()].value) != Trim(o.value)
  }

  lemma {:induction false} RewriteAllFrame(index: Index, lines: seq<string>, os: seq<Override>, i: nat)
    requires InBounds(index, |lines|) && i < |lines|
    ensures var r := RewriteAll(index, lines, os);
            r[i] == lines[i]
            || exists o :: o in os && RewritesLine(index, o, i) && r[i] == Rewritten(index[o.Key()], o.value)
    ensures (forall o | o in os :: !RewritesLine(index, o, i)) ==> RewriteAll(index, lines, os)[i] == lines[i]
  {
    hide Trim, Rewritten;
    if os != [] {
      var p, o := os[..|os| - 1], os[|os| - 1];
      RewriteAllFrame(index, lines, p, i);
      assert os == p + [o];
    }
  }

  /** THE FRAME. Deleting the added lines from the merged file leaves the original lines in
      their order, every one as it was unless an override was applied to it. */
  lemma MergeKeepsLines(f: ConfigFile, items: Items)
    requires FromParser(f) && InBounds(Latest(Flat(f.sections)), |f.lines|)
    ensures var index, os := Latest(Flat(f.sections)), Listing(items);
            var kept := RewriteAll(index, f.lines, os);
            && Within(kept, MergedLines(f, os)) && |kept| == |f.lines|
            && forall i | 0 <= i < |f.lines| && kept[i] != f.lines[i] ::
                 exists o :: o in os && RewritesLine(index, o, i) && kept[i] == Rewritten(index[o.Key()], o.value)
  {
    var index, os := Latest(Flat(f.sections)), Listing(items);
    var kept, known, pending := RewriteAll(index, f.lines, os), SectionNames(f.sections), Pending(index, os);
    hide Flat, Latest, Listing, Within, AppendAll, RewriteAll, RewritesLine, SectionNames, FileOf;
    AppendAllWithin(kept, known, pending, OrderOf(pending));
    forall i | 0 <= i < |f.lines| && kept[i] != f.lines[i]
      ensures exists o :: o in os && RewritesLine(index, o, i) && kept[i] == Rewritten(index[o.Key()], o.value)
    {
      RewriteAllFrame(index, f.lines, os, i);
    }
  }

  /** The design says only the right-hand side of a rewritten line changes. That holds exactly
      for a line that starts with its key and has no white space but blanks and tabs before
      its '='; an indented entry loses its indentation. */
  lemma {:induction false} LeftSideKept(raw: string)
    requires '=' in raw && Trim(raw[..IndexOf(raw, '=')]) != ""
    ensures var left := raw[..IndexOf(raw, '=')];
            var (key, sep, _) := SplitEntry(raw);
            var kept := BlanksStart(left, |left|);
            key + sep <= raw <==> !IsSpace(raw[0]) && kept > 0 && !IsSpace(left[kept - 1])
  {
    var i := IndexOf(raw, '=');
    var left, right := raw[..i], raw[i + 1..];
    var b := BlanksStart(left, |left|);
    assert raw == left + "=" + right;
    assert b > 0 ==> raw[0] == left[..b][0] && left[b - 1] == left[..b][b - 1];
    SplitEntryAt(left, right);
    TrimKeepsOut(left, '=');
    KeyStartsLine(left, b);
    hide Trim, BlanksStart, LeadingBlanks, SplitEntry;
    PrefixIffKey(left, b, right, LeadingBlanks(right), Trim(left));
  }

  lemma KeyStartsLine(left: string, b: nat)
    requires b == BlanksStart(left, |left|)
    ensures b > 0 ==> (Trim(left) == left[..b] <==> !IsSpace(left[..b][0]) && !IsSpace(left[..b][b - 1]))
    ensures b == 0 ==> Trim(left) == ""
  {
    assert forall j | b <= j < |left| :: IsBlank(left[j]);
    assert left == left[..b] + left[b..];
    TrimPadRight(left[..b], left[b..]);
    TrimOfTrimmed("");
    if Trimmed(left[..b]) {
      TrimOfTrimmed(left[..b]);
    }
  }

  lemma PrefixIffKey(left: string, b: nat, right: string, n: nat, key: string)
    requires '=' !in left && '=' !in key && b <= |left| && n <= |right|
    ensures key + (left[b..] + "=" + right[..n]) <= left + "=" + right <==> key == left[..b]
  {
    var x, raw := key + left[b..], left + "=" + right;
    assert key + (left[b..] + "=" + right[..n]) == x + "=" + right[..n];
    assert '=' !in x;
    assert raw[|left|] == '=' && forall j | 0 <= j < |left| :: raw[j] == left[j];
    if x + "=" + right[..n] <= raw {
      assert (x + "=" + right[..n])[|x|] == '=' == raw[|x|];
      assert forall j | 0 <= j < |x| :: raw[j] == x[j];
      assert |x| == |left|;
      assert x == raw[..|x|] == left;
      assert key == x[..|key|];
    }
    if key == left[..b] {
      assert x == left;
      assert raw[..|left| + 1 + n] == x + "=" + right[..n];
    }
  }
}
