/** The pure core of `GCodeManager.sync_start_gcode`: choose the one skew
    command the printer's start G-code should hold, drop every stale line the
    plugin wrote earlier, keep every other line in order, append the command
    when it is missing, and decide whether the container must be rewritten. */
module GCodeManager {
  import opened Wrappers
  import Text
  import SkewCalculator
  import Decimal

  const MarlinPrefix: string := "M852"
  const KlipperPrefix: string := "SET_SKEW"
  const PluginId: string := SkewCalculator.PluginId
  const PluginComment: string := "; " + PluginId

  /** The command that should be present: the Marlin line when the method is
      `marlin` and its flag is set, else the Klipper line when the method is
      `klipper` and its flag is set, else none. */
  function SelectTarget(c: SkewCalculator.Calculator, mode: string, marlinAdd: bool, klipperAdd: bool)
    : (r: Option<string>)
    ensures r.Some? <==> (mode == "marlin" && marlinAdd) || (mode == "klipper" && klipperAdd)
    ensures mode == "marlin" && marlinAdd ==> r == Some(SkewCalculator.MarlinCommand(c))
    ensures mode == "klipper" && klipperAdd ==> r == Some(SkewCalculator.KlipperCommand(c))
  {
    if mode == "marlin" && marlinAdd then Some(SkewCalculator.MarlinCommand(c))
    else if mode == "klipper" && klipperAdd then Some(SkewCalculator.KlipperCommand(c))
    else None
  }

  /** Python truthiness of `command_to_ensure`: present and not empty. */
  predicate Present(t: Option<string>) {
    t.Some? && t.value != ""
  }

  /** A line the plugin wrote: after stripping, it starts with one of the two
      command prefixes and carries the plugin comment somewhere. */
  predicate IsOwned(line: string) {
    var s := Text.Strip(line);
    (Text.StartsWith(s, MarlinPrefix) || Text.StartsWith(s, KlipperPrefix)) && Text.Contains(s, PluginComment)
  }

  /** How the filter loop treats one line: a foreign line and the wanted
      command stay, any other plugin line goes. */
  datatype Kind = Foreign | Current | Stale

  function Classify(t: Option<string>, line: string): (k: Kind)
    ensures k == Foreign <==> !IsOwned(line)
    ensures k == Current <==> IsOwned(line) && Present(t) && Text.Strip(line) == t.value
  {
    if !IsOwned(line) then Foreign
    else if Present(t) && Text.Strip(line) == t.value then Current
    else Stale
  }

  /** `Classify` for a fixed wanted command, as a value. The list lemmas
      below are stated for any classifier, so that they never look inside
      the text of a line. */
  function Classifier(t: Option<string>): string -> Kind {
    l => Classify(t, l)
  }

  /** The line survives the filter. */
  function Keep(cls: string -> Kind): string -> bool {
    l => cls(l) != Stale
  }

  function Is(cls: string -> Kind, k: Kind): string -> bool {
    l => cls(l) == k
  }

  /** The line strips to `s`: the test behind `already_present_exact`. */
  function StripsTo(s: string): string -> bool {
    l => Text.Strip(l) == s
  }

  /** A line the plugin did not write. */
  function Unowned(): string -> bool {
    l => !IsOwned(l)
  }

  // Sequences filtered by a predicate.

  /** Some element of `s` satisfies `p`. */
  predicate Any<T>(s: seq<T>, p: T -> bool) {
    exists i :: 0 <= i < |s| && p(s[i])
  }

  lemma AnyCons<T>(s: seq<T>, p: T -> bool)
    requires s != []
    ensures Any(s, p) <==> p(s[0]) || Any(s[1..], p)
  {
    if Any(s[1..], p) {
      var i :| 0 <= i < |s[1..]| && p(s[1..][i]);
      assert s[i + 1] == s[1..][i];
    }
    if Any(s, p) && !p(s[0]) {
      var i :| 0 <= i < |s| && p(s[i]);
      assert s[1..][i - 1] == s[i];
    }
  }

  /** The elements satisfying `keep`, in their original order. */
  function Filter<T>(s: seq<T>, keep: T -> bool): (r: seq<T>)
    ensures |r| <= |s|
    ensures forall i :: 0 <= i < |r| ==> keep(r[i])
    decreases |s|
  {
    if s == [] then []
    else
      var front := Filter(s[..|s| - 1], keep);
      var last := s[|s| - 1];
      if keep(last) then front + [last] else front
  }

  lemma {:induction false} FilterCons<T>(x: T, rest: seq<T>, keep: T -> bool)
    ensures Filter([x] + rest, keep) == (if keep(x) then [x] else []) + Filter(rest, keep)
    decreases |rest|
  {
    var s := [x] + rest;
    if rest != [] {
      assert s[..|s| - 1] == [x] + rest[..|rest| - 1];
      FilterCons(x, rest[..|rest| - 1], keep);
    } else {
      assert s[..|s| - 1] == [];
    }
  }

  lemma FilterAppend<T>(s: seq<T>, x: T, keep: T -> bool)
    ensures Filter(s + [x], keep) == Filter(s, keep) + (if keep(x) then [x] else [])
  {
    assert (s + [x])[..|s + [x]| - 1] == s;
  }

  lemma {:induction false} FilterAll<T>(s: seq<T>, keep: T -> bool)
    requires forall i :: 0 <= i < |s| ==> keep(s[i])
    ensures Filter(s, keep) == s
    decreases |s|
  {
    if s != [] {
      FilterAll(s[..|s| - 1], keep);
      assert s == s[..|s| - 1] + [s[|s| - 1]];
    }
  }

  lemma {:induction false} FilterSame<T>(s: seq<T>, p: T -> bool, q: T -> bool)
    requires forall x :: p(x) == q(x)
    ensures Filter(s, p) == Filter(s, q)
    decreases |s|
  {
    if s != [] {
      FilterSame(s[..|s| - 1], p, q);
    }
  }

  /** Filtering by a weaker condition first changes nothing. */
  lemma {:induction false} FilterFilter<T>(s: seq<T>, p: T -> bool, q: T -> bool)
    requires forall x :: q(x) ==> p(x)
    ensures Filter(Filter(s, p), q) == Filter(s, q)
    decreases |s|
  {
    if s != [] {
      var front := s[..|s| - 1];
      FilterFilter(front, p, q);
      if p(s[|s| - 1]) {
        assert Filter(s, p)[..|Filter(s, p)| - 1] == Filter(front, p);
      }
    }
  }

  /** What holds of every element still holds after filtering. */
  lemma {:induction false} FilterKeepsAll<T>(s: seq<T>, keep: T -> bool, p: T -> bool)
    requires forall i :: 0 <= i < |s| ==> p(s[i])
    ensures forall i :: 0 <= i < |Filter(s, keep)| ==> p(Filter(s, keep)[i])
    decreases |s|
  {
    if s != [] {
      FilterKeepsAll(s[..|s| - 1], keep, p);
    }
  }

  /** An element `keep` accepts satisfying `p` leaves one after filtering. */
  lemma {:induction false} FilterKeepsAny<T>(s: seq<T>, keep: T -> bool, p: T -> bool)
    requires forall x :: keep(x) || !p(x)
    requires Any(s, p)
    ensures Any(Filter(s, keep), p)
    decreases |s|
  {
    var front := s[..|s| - 1];
    var last := s[|s| - 1];
    if p(last) {
      assert Filter(s, keep)[|Filter(s, keep)| - 1] == last;
    } else {
      var i :| 0 <= i < |s| && p(s[i]);
      assert front[i] == s[i];
      FilterKeepsAny(front, keep, p);
      var k :| 0 <= k < |Filter(front, keep)| && p(Filter(front, keep)[k]);
      assert Filter(s, keep)[k] == Filter(front, keep)[k];
    }
  }

  // The filter loop.

  /** What the filter loop collects: the surviving lines, whether a stale
      line was dropped, and whether the wanted command was already there. */
  datatype Filtered = Filtered(kept: seq<string>, removed: bool, found: bool)

  /** The loop over `splitlines()`, one line after the other: a foreign line
      or the wanted command is kept, any other plugin line is dropped. */
  function FilterLines(lines: seq<string>, cls: string -> Kind): (r: Filtered)
    ensures r.kept == Filter(lines, Keep(cls))
    ensures r.removed <==> Any(lines, Is(cls, Stale))
    ensures r.found <==> Any(lines, Is(cls, Current))
    decreases |lines|
  {
    if lines == [] then Filtered([], false, false)
    else
      var l := lines[0];
      var rest := FilterLines(lines[1..], cls);
      FilterCons(l, lines[1..], Keep(cls));
      assert lines == [l] + lines[1..];
      AnyCons(lines, Is(cls, Stale));
      AnyCons(lines, Is(cls, Current));
      match cls(l)
      case Foreign => rest.(kept := [l] + rest.kept)
      case Current => Filtered([l] + rest.kept, rest.removed, true)
      case Stale => rest.(removed := true)
  }

  /** The new list of lines and what happened to it. */
  datatype Synced = Synced(lines: seq<string>, added: bool, removed: bool)

  /** Filter, then append the wanted command unless a kept line already
      strips to it. */
  function SyncLines(lines: seq<string>, t: Option<string>): (r: Synced)
    ensures r.added <==> Present(t) && !Any(Filter(lines, Keep(Classifier(t))), StripsTo(t.value))
    ensures r.lines == Filter(lines, Keep(Classifier(t))) + (if r.added then [t.value] else [])
    ensures r.removed <==> Any(lines, Is(Classifier(t), Stale))
  {
    var f := FilterLines(lines, Classifier(t));
    var add := Present(t) && !f.found && !Any(f.kept, StripsTo(t.value));
    CurrentIsKept(lines, t);
    Synced(f.kept + (if add then [t.value] else []), add, f.removed)
  }

  /** A line that already is the wanted command survives the filter, so the
      `found` flag adds nothing to the `already_present_exact` test. */
  lemma CurrentIsKept(lines: seq<string>, t: Option<string>)
    ensures Any(lines, Is(Classifier(t), Current)) ==> Any(Filter(lines, Keep(Classifier(t))), StripsTo(t.value))
  {
    var cls := Classifier(t);
    if Any(lines, Is(cls, Current)) {
      var i :| 0 <= i < |lines| && Is(cls, Current)(lines[i]);
      assert StripsTo(t.value)(lines[i]);
      assert Any(lines, StripsTo(t.value));
      assert forall x :: Keep(cls)(x) || !StripsTo(t.value)(x) by {
        forall x
          ensures Keep(cls)(x) || !StripsTo(t.value)(x)
        {
          var k := Classify(t, x);
        }
      }
      FilterKeepsAny(lines, Keep(cls), StripsTo(t.value));
    }
  }

  /** The result of one synchronisation: whether the container is written,
      and the start G-code it holds afterwards. */
  datatype Outcome = Outcome(write: bool, text: string)

  /** Work on `splitlines()`, write `"\n".join(...)` only when a line was
      added or removed and the text really differs. */
  function SyncStartGcode(original: string, t: Option<string>): (r: Outcome)
    ensures !r.write ==> r.text == original
    ensures r.write ==> r.text != original && r.text == Text.Join(SyncLines(Text.SplitLines(original), t).lines, '\n')
    ensures r.write <==>
      (SyncLines(Text.SplitLines(original), t).added || SyncLines(Text.SplitLines(original), t).removed)
      && Text.Join(SyncLines(Text.SplitLines(original), t).lines, '\n') != original
  {
    var s := SyncLines(Text.SplitLines(original), t);
    var joined := Text.Join(s.lines, '\n');
    if (s.added || s.removed) && joined != original then Outcome(true, joined)
    else Outcome(false, original)
  }

  // Properties.

  /** Lines the plugin did not write are kept unmodified and in order. */
  lemma ForeignLinesKept(lines: seq<string>, t: Option<string>)
    ensures Filter(SyncLines(lines, t).lines, Unowned())
      == Filter(lines, Unowned()) + (if SyncLines(lines, t).added && !IsOwned(t.value) then [t.value] else [])
  {
    var keep := Keep(Classifier(t));
    var s := SyncLines(lines, t);
    var f := Filter(lines, keep);
    UnownedKept(t);
    FilterFilter(lines, keep, Unowned());
    if s.added {
      assert s.lines == f + [t.value];
      FilterAppend(f, t.value, Unowned());
      assert Unowned()(t.value) == !IsOwned(t.value);
    } else {
      assert s.lines == f;
    }
  }

  lemma UnownedKept(t: Option<string>)
    ensures forall x :: Unowned()(x) ==> Keep(Classifier(t))(x)
  {
  }

  /** With no command to ensure, exactly the foreign lines remain. */
  lemma NoTargetRemovesOwned(lines: seq<string>, t: Option<string>)
    requires !Present(t)
    ensures SyncLines(lines, t).lines == Filter(lines, Unowned())
    ensures !Any(SyncLines(lines, t).lines, IsOwned)
  {
    var keep := Keep(Classifier(t));
    assert forall x :: keep(x) == Unowned()(x);
    FilterSame(lines, keep, Unowned());
  }

  /** Every plugin line left behind is a copy of the wanted command. */
  lemma OwnedLinesMatchTarget(lines: seq<string>, t: Option<string>)
    requires WellFormed(t)
    ensures var out := SyncLines(lines, t).lines;
      forall i :: 0 <= i < |out| && IsOwned(out[i]) ==> Present(t) && Text.Strip(out[i]) == t.value
  {
    var s := SyncLines(lines, t);
    var f := Filter(lines, Keep(Classifier(t)));
    forall i | 0 <= i < |s.lines| && IsOwned(s.lines[i])
      ensures Present(t) && Text.Strip(s.lines[i]) == t.value
    {
      if i < |f| {
        assert s.lines[i] == f[i];
        assert Keep(Classifier(t))(f[i]);
        var k := Classify(t, f[i]);
      }
    }
  }

  /** A command with no line break and no surrounding whitespace: what the
      calculator produces. */
  predicate WellFormed(t: Option<string>) {
    t.Some? ==> Text.NoBreak(t.value) && Text.Strip(t.value) == t.value
  }

  /** A well-formed wanted command is its own plugin line or a foreign one,
      and never stale. */
  lemma TargetKept(t: Option<string>)
    requires Present(t) && WellFormed(t)
    ensures Keep(Classifier(t))(t.value) && StripsTo(t.value)(t.value)
  {
  }

  /** The empty line never strips to a wanted command. */
  lemma EmptyNotTarget(t: Option<string>)
    requires Present(t)
    ensures !StripsTo(t.value)("")
  {
    assert Text.Strip("") == "";
  }

  /** After a synchronisation the wanted command is present. */
  lemma TargetPresentAfter(lines: seq<string>, t: Option<string>)
    requires Present(t) && WellFormed(t)
    ensures Any(SyncLines(lines, t).lines, StripsTo(t.value))
  {
    var s := SyncLines(lines, t);
    var f := Filter(lines, Keep(Classifier(t)));
    if s.added {
      TargetKept(t);
      assert s.lines[|s.lines| - 1] == t.value;
    } else {
      var k :| 0 <= k < |f| && StripsTo(t.value)(f[k]);
      assert s.lines[k] == f[k];
    }
  }

  /** The lines are already in sync: no plugin line is stale and the wanted
      command is there. */
  predicate InSync(lines: seq<string>, t: Option<string>) {
    (forall i :: 0 <= i < |lines| ==> Keep(Classifier(t))(lines[i]))
    && (Present(t) ==> Any(lines, StripsTo(t.value)))
  }

  /** Lines in sync are left as they are: nothing added, nothing removed. */
  lemma InSyncUnchanged(lines: seq<string>, t: Option<string>)
    requires InSync(lines, t)
    ensures SyncLines(lines, t) == Synced(lines, false, false)
  {
    FilterAll(lines, Keep(Classifier(t)));
  }

  /** One synchronisation brings any lines in sync. */
  lemma SyncLinesInSync(lines: seq<string>, t: Option<string>)
    requires WellFormed(t)
    ensures InSync(SyncLines(lines, t).lines, t)
  {
    var s := SyncLines(lines, t);
    var keep := Keep(Classifier(t));
    var f := Filter(lines, keep);
    if Present(t) {
      TargetPresentAfter(lines, t);
    }
    forall i | 0 <= i < |s.lines|
      ensures keep(s.lines[i])
    {
      if i < |f| {
        assert s.lines[i] == f[i];
      } else {
        assert s.lines[i] == t.value;
        TargetKept(t);
      }
    }
  }

  /** Running the filter again on its own output changes nothing. */
  lemma SyncLinesIdempotent(lines: seq<string>, t: Option<string>)
    requires WellFormed(t)
    ensures SyncLines(SyncLines(lines, t).lines, t) == Synced(SyncLines(lines, t).lines, false, false)
  {
    SyncLinesInSync(lines, t);
    InSyncUnchanged(SyncLines(lines, t).lines, t);
  }

  /** Dropping a final empty line keeps lines in sync. */
  lemma DropTrailingEmptyInSync(lines: seq<string>, t: Option<string>)
    requires InSync(lines, t)
    ensures InSync(Text.DropTrailingEmpty(lines), t)
  {
    DropKeepsAll(lines, Keep(Classifier(t)));
    if Present(t) {
      EmptyNotTarget(t);
      DropKeepsAny(lines, StripsTo(t.value));
    }
  }

  /** Dropping a final empty line keeps a property every line has. */
  lemma DropKeepsAll(lines: seq<string>, p: string -> bool)
    requires forall i :: 0 <= i < |lines| ==> p(lines[i])
    ensures forall i :: 0 <= i < |Text.DropTrailingEmpty(lines)| ==> p(Text.DropTrailingEmpty(lines)[i])
  {
    var d := Text.DropTrailingEmpty(lines);
    forall i | 0 <= i < |d|
      ensures p(d[i])
    {
      assert d[i] == lines[i];
    }
  }

  /** Dropping a final empty line keeps a line the empty line cannot stand in for. */
  lemma DropKeepsAny(lines: seq<string>, p: string -> bool)
    requires !p("") && Any(lines, p)
    ensures Any(Text.DropTrailingEmpty(lines), p)
  {
    var d := Text.DropTrailingEmpty(lines);
    var k :| 0 <= k < |lines| && p(lines[k]);
    assert k < |d| && d[k] == lines[k];
  }

  /** The synchronised lines carry no line break. */
  lemma SyncedNoBreak(lines: seq<string>, t: Option<string>)
    requires WellFormed(t)
    requires forall i :: 0 <= i < |lines| ==> Text.NoBreak(lines[i])
    ensures forall i :: 0 <= i < |SyncLines(lines, t).lines| ==> Text.NoBreak(SyncLines(lines, t).lines[i])
  {
    var s := SyncLines(lines, t);
    var f := Filter(lines, Keep(Classifier(t)));
    FilterKeepsAll(lines, Keep(Classifier(t)), Text.NoBreak);
    forall i | 0 <= i < |s.lines|
      ensures Text.NoBreak(s.lines[i])
    {
      if i < |f| {
        assert s.lines[i] == f[i];
      }
    }
  }

  /** A second synchronisation of the start G-code never writes: the
      synchronised text is a fixed point. */
  lemma SyncIdempotent(original: string, t: Option<string>)
    requires WellFormed(t)
    ensures !SyncStartGcode(SyncStartGcode(original, t).text, t).write
  {
    var r := SyncStartGcode(original, t);
    if r.write {
      var split := Text.SplitLines(original);
      var lines := SyncLines(split, t).lines;
      SyncLinesInSync(split, t);
      if lines == [] {
        assert Text.SplitLines(r.text) == [];
        InSyncUnchanged([], t);
      } else {
        SyncedNoBreak(split, t);
        Text.SplitLinesJoin(lines);
        DropTrailingEmptyInSync(lines, t);
        InSyncUnchanged(Text.SplitLines(r.text), t);
      }
    }
  }

  // The commands the calculator produces.

  /** A rendered number has no line break. */
  lemma FixedNoBreak(x: real, d: nat)
    requires d > 0
    ensures Text.NoBreak(Decimal.FormatFixed(x, d))
  {
    var s := Decimal.FormatFixed(x, d);
    forall i | 0 <= i < |s|
      ensures !Text.IsLineBreak(s[i])
    {
      assert Decimal.IsDigit(s[i]) || s[i] == '.' || s[i] == '-';
    }
  }

  /** A line shaped like `<prefix><body> ; PrintSkewCompensation`. */
  lemma CommandShape(prefix: string, body: string, cmd: string)
    requires prefix == MarlinPrefix || prefix == KlipperPrefix
    requires Text.NoBreak(body)
    requires cmd == prefix + body + " " + PluginComment
    ensures WellFormed(Some(cmd)) && IsOwned(cmd)
  {
    var head := prefix + body + " ";
    assert cmd == head + PluginComment;
    HeadNoBreak(prefix, body, head);
    assert Text.NoBreak(PluginComment);
    Text.NoBreakConcat(head, PluginComment);
    assert cmd[0] == prefix[0];
    assert cmd[|cmd| - 1] == PluginComment[|PluginComment| - 1] == 'n';
    Text.StripTrimmed(cmd);
    assert cmd[..|prefix|] == prefix;
    Text.ContainsSuffix(head, PluginComment);
  }

  lemma HeadNoBreak(prefix: string, body: string, head: string)
    requires prefix == MarlinPrefix || prefix == KlipperPrefix
    requires Text.NoBreak(body) && head == prefix + body + " "
    ensures Text.NoBreak(head)
  {
    assert Text.NoBreak(" ");
    Text.NoBreakConcat(prefix, body);
    Text.NoBreakConcat(prefix + body, " ");
  }

  /** The Marlin command is a well-formed plugin line. */
  lemma MarlinCommandOwned(c: SkewCalculator.Calculator)
    ensures WellFormed(Some(SkewCalculator.MarlinCommand(c)))
    ensures IsOwned(SkewCalculator.MarlinCommand(c))
  {
    FixedNoBreak(c.i, 8);
    FixedNoBreak(c.j, 8);
    FixedNoBreak(c.k, 8);
    MarlinTextOwned(Decimal.FormatFixed(c.i, 8), Decimal.FormatFixed(c.j, 8), Decimal.FormatFixed(c.k, 8));
  }

  lemma MarlinTextOwned(i: string, j: string, k: string)
    requires Text.NoBreak(i) && Text.NoBreak(j) && Text.NoBreak(k)
    ensures WellFormed(Some(SkewCalculator.MarlinText(i, j, k)))
    ensures IsOwned(SkewCalculator.MarlinText(i, j, k))
  {
    var body := " I" + i + " J" + j + " K" + k;
    TaggedNoBreak(" I", i, " J", j, " K", k);
    CommandShape(MarlinPrefix, body, SkewCalculator.MarlinText(i, j, k));
  }

  /** Three tagged values in a row carry no line break. */
  lemma TaggedNoBreak(a: string, x: string, b: string, y: string, c: string, z: string)
    requires Text.NoBreak(a) && Text.NoBreak(x) && Text.NoBreak(b) && Text.NoBreak(y)
    requires Text.NoBreak(c) && Text.NoBreak(z)
    ensures Text.NoBreak(a + x + b + y + c + z)
  {
    Text.NoBreakConcat(a, x);
    Text.NoBreakConcat(a + x, b);
    Text.NoBreakConcat(a + x + b, y);
    Text.NoBreakConcat(a + x + b + y, c);
    Text.NoBreakConcat(a + x + b + y + c, z);
  }

  /** A Klipper command built from readings is a well-formed plugin line. */
  lemma KlipperTextOwned(xy: string, xz: string, yz: string)
    requires Text.NoBreak(xy) && Text.NoBreak(xz) && Text.NoBreak(yz)
    ensures WellFormed(Some(SkewCalculator.KlipperText(xy, xz, yz)))
    ensures IsOwned(SkewCalculator.KlipperText(xy, xz, yz))
  {
    var body := " XY=" + xy + " XZ=" + xz + " YZ=" + yz;
    TaggedNoBreak(" XY=", xy, " XZ=", xz, " YZ=", yz);
    CommandShape(KlipperPrefix, body, SkewCalculator.KlipperText(xy, xz, yz));
  }

  lemma PlaneTextNoBreak(ac: real, bd: real, ad: real)
    ensures Text.NoBreak(SkewCalculator.PlaneText(ac, bd, ad))
  {
    FixedNoBreak(ac, 3);
    FixedNoBreak(bd, 3);
    FixedNoBreak(ad, 3);
    TripleNoBreak(Decimal.FormatFixed(ac, 3), Decimal.FormatFixed(bd, 3), Decimal.FormatFixed(ad, 3));
  }

  lemma TripleNoBreak(x: string, y: string, z: string)
    requires Text.NoBreak(x) && Text.NoBreak(y) && Text.NoBreak(z)
    ensures Text.NoBreak(SkewCalculator.TripleText(x, y, z))
  {
    assert Text.NoBreak(",");
    Text.NoBreakConcat(x, ",");
    Text.NoBreakConcat(x + ",", y);
    Text.NoBreakConcat(x + "," + y, ",");
    Text.NoBreakConcat(x + "," + y + ",", z);
  }

  /** The error text for unreadable measurements is one clean line, but it
      does not carry the `; PrintSkewCompensation` comment, so a later
      synchronisation does not recognise it as a plugin line. */
  lemma KlipperErrorNotOwned()
    ensures WellFormed(Some(SkewCalculator.KlipperError))
    ensures !IsOwned(SkewCalculator.KlipperError)
  {
    var e := SkewCalculator.KlipperError;
    ErrNoBreak(e);
    ErrStrip(e);
    NotContainsComment(e);
    UncommentedNotOwned(e);
  }

  lemma UncommentedNotOwned(e: string)
    requires Text.Strip(e) == e && !Text.Contains(e, PluginComment)
    ensures !IsOwned(e)
  {
  }

  lemma NotContainsComment(e: string)
    requires e == SkewCalculator.KlipperError
    ensures !Text.Contains(e, PluginComment)
  {
    if Text.Contains(e, PluginComment) {
      Text.ContainsWitness(e, PluginComment);
      var i: nat :| Text.OccursAt(e, PluginComment, i);
      Text.OccursAtChar(e, PluginComment, i, 0);
      Text.OccursAtChar(e, PluginComment, i, 2);
      OnlySemicolon(e);
      assert false;
    }
  }

  /** The error line has one `;`, at index 9, and it is followed by ` E`. */
  lemma OnlySemicolon(e: string)
    requires e == SkewCalculator.KlipperError
    ensures |e| > 11 && e[11] == 'E'
    ensures forall k :: 0 <= k < |e| && k != 9 ==> e[k] != ';'
  {
    var a, b, c := "SET_SKEW ", "; Error: Invalid measurements (", PluginId + ")";
    assert e == a + b + c;
    NoSemicolonPrefix(a);
    NoSemicolonMessage(b[1..]);
    NoSemicolonId(c);
    assert e[11] == b[2];
    forall k | 0 <= k < |e| && k != 9
      ensures e[k] != ';'
    {
      if k < |a| {
        assert e[k] == a[k];
      } else if k < |a| + |b| {
        assert e[k] == b[1..][k - |a| - 1];
      } else {
        assert e[k] == c[k - |a| - |b|];
      }
    }
  }

  lemma NoSemicolonPrefix(s: string)
    requires s == "SET_SKEW "
    ensures forall k :: 0 <= k < |s| ==> s[k] != ';'
  {
  }

  lemma NoSemicolonMessage(s: string)
    requires s == " Error: Invalid measurements ("
    ensures forall k :: 0 <= k < |s| ==> s[k] != ';'
  {
  }

  lemma NoSemicolonId(s: string)
    requires s == PluginId + ")"
    ensures forall k :: 0 <= k < |s| ==> s[k] != ';'
  {
  }

  lemma ErrPieces(a: string, b: string, c: string, d: string)
    requires a == "SET_SKEW " && b == "; Error: Invalid measurements (" && c == PluginId && d == ")"
    ensures Text.NoBreak(a + b + c + d)
  {
    assert Text.NoBreak(a) && Text.NoBreak(b) && Text.NoBreak(c) && Text.NoBreak(d);
    Text.NoBreakConcat(a, b);
    Text.NoBreakConcat(a + b, c);
    Text.NoBreakConcat(a + b + c, d);
  }

  lemma ErrStrip(e: string)
    requires e == SkewCalculator.KlipperError
    ensures Text.Strip(e) == e
  {
  }

  lemma ErrNoBreak(e: string)
    requires e == SkewCalculator.KlipperError
    ensures Text.NoBreak(e)
  {
    ErrPieces("SET_SKEW ", "; Error: Invalid measurements (", PluginId, ")");
  }

  /** Whatever the calculator and the settings, the command to ensure is one
      clean line, so the synchronisation is idempotent for it. */
  lemma TargetWellFormed(c: SkewCalculator.Calculator, mode: string, marlinAdd: bool, klipperAdd: bool)
    ensures WellFormed(SelectTarget(c, mode, marlinAdd, klipperAdd))
  {
    MarlinCommandOwned(c);
    if SkewCalculator.AllNumbers(c.xy) && SkewCalculator.AllNumbers(c.xz) && SkewCalculator.AllNumbers(c.yz) {
      PlaneTextNoBreak(c.xy.ac.value, c.xy.bd.value, c.xy.ad.value);
      PlaneTextNoBreak(c.xz.ac.value, c.xz.bd.value, c.xz.ad.value);
      PlaneTextNoBreak(c.yz.ac.value, c.yz.bd.value, c.yz.ad.value);
      KlipperTextOwned(
        SkewCalculator.PlaneText(c.xy.ac.value, c.xy.bd.value, c.xy.ad.value),
        SkewCalculator.PlaneText(c.xz.ac.value, c.xz.bd.value, c.xz.ad.value),
        SkewCalculator.PlaneText(c.yz.ac.value, c.yz.bd.value, c.yz.ad.value));
    } else {
      KlipperErrorNotOwned();
    }
  }

  /** Synchronising twice with the same settings writes at most once. */
  lemma SyncSettingsIdempotent(original: string, c: SkewCalculator.Calculator, mode: string, marlinAdd: bool, klipperAdd: bool)
    ensures var t := SelectTarget(c, mode, marlinAdd, klipperAdd);
      !SyncStartGcode(SyncStartGcode(original, t).text, t).write
  {
    TargetWellFormed(c, mode, marlinAdd, klipperAdd);
    SyncIdempotent(original, SelectTarget(c, mode, marlinAdd, klipperAdd));
  }
}
