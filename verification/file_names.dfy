/** The per-printer settings file name, `_sanitized_settings_file_name`,
    which the controller and the post-processing script define identically:
    every character outside `[a-zA-Z0-9._-]` becomes `_`, runs of `_` shrink
    to one, `_` is stripped from both ends, and the first eight characters of
    the name's SHA-256 hex digest and `.cfg` are appended. */
module FileNames {

  /** The class `[a-zA-Z0-9._-]`. */
  predicate Allowed(c: char) {
    ('a' <= c <= 'z') || ('A' <= c <= 'Z') || ('0' <= c <= '9') || c == '.' || c == '_' || c == '-'
  }

  /** `re.sub(r'[^a-zA-Z0-9._-]', '_', s)`. */
  function ReplaceDisallowed(s: string): (r: string)
    ensures |r| == |s|
    ensures forall i :: 0 <= i < |s| ==> r[i] == (if Allowed(s[i]) then s[i] else '_')
  {
    seq(|s|, i requires 0 <= i < |s| => if Allowed(s[i]) then s[i] else '_')
  }

  /** Every character is in the class. */
  predicate AllAllowed(s: string) {
    forall i :: 0 <= i < |s| ==> Allowed(s[i])
  }

  /** No two `_` in a row. */
  predicate NoDoubleUnderscore(s: string) {
    forall i :: 0 <= i < |s| - 1 ==> !(s[i] == '_' && s[i + 1] == '_')
  }

  /** `re.sub(r'_+', '_', s)`: every run of `_` becomes a single `_`. */
  function CollapseUnderscores(s: string): (r: string)
    ensures |r| <= |s|
    ensures NoDoubleUnderscore(r)
    ensures s != [] ==> r != [] && r[0] == s[0] && r[|r| - 1] == s[|s| - 1]
    ensures AllAllowed(s) ==> AllAllowed(r)
    decreases |s|
  {
    if |s| < 2 then s
    else if s[0] == '_' && s[1] == '_' then CollapseUnderscores(s[1..])
    else
      var rest := CollapseUnderscores(s[1..]);
      assert rest[0] == s[1];
      [s[0]] + rest
  }

  /** `s.lstrip('_')`. */
  function StripLeading(s: string): (r: string)
    ensures |r| <= |s| && r == s[|s| - |r|..]
    ensures r == [] || r[0] != '_'
    ensures forall i :: 0 <= i < |s| - |r| ==> s[i] == '_'
    decreases |s|
  {
    if s != [] && s[0] == '_' then StripLeading(s[1..]) else s
  }

  /** `s.rstrip('_')`. */
  function StripTrailing(s: string): (r: string)
    ensures |r| <= |s| && r == s[..|r|]
    ensures r == [] || r[|r| - 1] != '_'
    ensures forall i :: |r| <= i < |s| ==> s[i] == '_'
    decreases |s|
  {
    if s != [] && s[|s| - 1] == '_' then StripTrailing(s[..|s| - 1]) else s
  }

  /** `s.strip('_')`. */
  function StripUnderscores(s: string): string {
    StripTrailing(StripLeading(s))
  }

  /** A name the sanitiser leaves alone: allowed characters only, no `__`,
      no `_` at either end. */
  predicate IsSafe(s: string) {
    AllAllowed(s)
    && NoDoubleUnderscore(s)
    && (s == [] || (s[0] != '_' && s[|s| - 1] != '_'))
  }

  /** The `safe_name` part. */
  function SafeName(name: string): (r: string)
    ensures IsSafe(r)
  {
    var collapsed := CollapseUnderscores(ReplaceDisallowed(name));
    StripKeepsSafe(collapsed);
    StripUnderscores(collapsed)
  }

  /** Stripping `_` from both ends of a string of allowed characters
      without `__` leaves a safe name. */
  lemma StripKeepsSafe(s: string)
    requires AllAllowed(s) && NoDoubleUnderscore(s)
    ensures IsSafe(StripUnderscores(s))
  {
    var mid := StripLeading(s);
    SliceKeepsSafe(s, mid, StripTrailing(mid));
  }

  /** A piece cut out of a string with allowed characters and no `__`, with
      no `_` at either end, is safe. */
  lemma SliceKeepsSafe(s: string, mid: string, r: string)
    requires AllAllowed(s) && NoDoubleUnderscore(s)
    requires |mid| <= |s| && mid == s[|s| - |mid|..] && (mid == [] || mid[0] != '_')
    requires |r| <= |mid| && r == mid[..|r|] && (r == [] || r[|r| - 1] != '_')
    ensures IsSafe(r)
  {
    var a := |s| - |mid|;
    assert r == s[a..a + |r|];
    SubKeeps(s, a, a + |r|);
    assert r == [] || r[0] == mid[0];
  }

  lemma SubKeeps(s: string, a: nat, b: nat)
    requires a <= b <= |s| && AllAllowed(s) && NoDoubleUnderscore(s)
    ensures AllAllowed(s[a..b]) && NoDoubleUnderscore(s[a..b])
  {
    var t := s[a..b];
    forall i | 0 <= i < |t|
      ensures Allowed(t[i])
    {
      assert t[i] == s[a + i];
    }
    forall i | 0 <= i < |t| - 1
      ensures !(t[i] == '_' && t[i + 1] == '_')
    {
      assert t[i] == s[a + i] && t[i + 1] == s[a + i + 1];
    }
  }

  /** A safe name is its own sanitised form. */
  lemma SafeNameFixed(s: string)
    requires IsSafe(s)
    ensures SafeName(s) == s
  {
    assert ReplaceDisallowed(s) == s;
    CollapseNoDouble(s);
  }

  /** Collapsing changes nothing when there is no `__`. */
  lemma {:induction false} CollapseNoDouble(s: string)
    requires NoDoubleUnderscore(s)
    ensures CollapseUnderscores(s) == s
    decreases |s|
  {
    if |s| >= 2 {
      assert !(s[0] == '_' && s[1] == '_');
      forall i | 0 <= i < |s[1..]| - 1
        ensures !(s[1..][i] == '_' && s[1..][i + 1] == '_')
      {
        assert s[1..][i] == s[i + 1] && s[1..][i + 1] == s[i + 2];
      }
      CollapseNoDouble(s[1..]);
      assert s == [s[0]] + s[1..];
    }
  }

  /** Sanitising twice is sanitising once. */
  lemma SafeNameIdempotent(name: string)
    ensures SafeName(SafeName(name)) == SafeName(name)
  {
    SafeNameFixed(SafeName(name));
  }

  /** The characters other than `_`, in order. */
  function Solid(s: string): (r: string)
    decreases |s|
  {
    if s == [] then []
    else (if s[0] == '_' then [] else [s[0]]) + Solid(s[1..])
  }

  lemma {:induction false} SolidAppend(a: string, b: string)
    ensures Solid(a + b) == Solid(a) + Solid(b)
    decreases |a|
  {
    if a == [] {
      assert a + b == b;
    } else {
      assert (a + b)[0] == a[0];
      assert (a + b)[1..] == a[1..] + b;
      SolidAppend(a[1..], b);
    }
  }

  lemma {:induction false} SolidCollapse(s: string)
    ensures Solid(CollapseUnderscores(s)) == Solid(s)
    decreases |s|
  {
    if |s| >= 2 {
      SolidCollapse(s[1..]);
      if !(s[0] == '_' && s[1] == '_') {
        SolidAppend([s[0]], CollapseUnderscores(s[1..]));
        assert ([s[0]] + CollapseUnderscores(s[1..]))[1..] == CollapseUnderscores(s[1..]);
      }
    }
  }

  lemma {:induction false} SolidUnderscores(s: string)
    requires forall i :: 0 <= i < |s| ==> s[i] == '_'
    ensures Solid(s) == []
    decreases |s|
  {
    if s != [] {
      SolidUnderscores(s[1..]);
    }
  }

  lemma SolidStrip(s: string)
    ensures Solid(StripUnderscores(s)) == Solid(s)
  {
    SolidStripLeading(s);
    SolidStripTrailing(StripLeading(s));
  }

  lemma SolidStripLeading(s: string)
    ensures Solid(StripLeading(s)) == Solid(s)
  {
    var mid := StripLeading(s);
    var front := s[..|s| - |mid|];
    assert s == front + mid;
    forall i | 0 <= i < |front|
      ensures front[i] == '_'
    {
      assert front[i] == s[i];
    }
    SolidUnderscores(front);
    SolidAppend(front, mid);
  }

  lemma SolidStripTrailing(s: string)
    ensures Solid(StripTrailing(s)) == Solid(s)
  {
    var r := StripTrailing(s);
    var back := s[|r|..];
    assert s == r + back;
    forall i | 0 <= i < |back|
      ensures back[i] == '_'
    {
      assert back[i] == s[|r| + i];
    }
    SolidUnderscores(back);
    SolidAppend(r, back);
  }

  /** Apart from underscores, the safe name is the name with each disallowed
      character dropped and the rest kept in order. */
  lemma SafeNameKeepsCharacters(name: string)
    ensures Solid(SafeName(name)) == Solid(ReplaceDisallowed(name))
  {
    var m := ReplaceDisallowed(name);
    SolidCollapse(m);
    SolidStrip(CollapseUnderscores(m));
  }

  /** `f"{safe_name}_{hash_part}.cfg"` with `hash_part` the first eight
      characters of the hex digest (all of it, if shorter). */
  function SettingsFileName(name: string, digest: string): (r: string)
    ensures |r| == |SafeName(name)| + 1 + (if |digest| < 8 then |digest| else 8) + 4
    ensures r[..|SafeName(name)| + 1] == SafeName(name) + "_"
    ensures r[|SafeName(name)| + 1..|r| - 4] == (if |digest| < 8 then digest else digest[..8])
    ensures r[|r| - 4..] == ".cfg"
  {
    var hashPart := if |digest| < 8 then digest else digest[..8];
    SafeName(name) + "_" + hashPart + ".cfg"
  }

  /** Distinct digests give distinct file names for the same printer name,
      as long as they differ in their first eight characters. */
  lemma FileNameSeparatesDigests(name: string, d1: string, d2: string)
    requires |d1| >= 8 && |d2| >= 8 && d1[..8] != d2[..8]
    ensures SettingsFileName(name, d1) != SettingsFileName(name, d2)
  {
    var n := |SafeName(name)| + 1;
    assert SettingsFileName(name, d1)[n..n + 8] == d1[..8];
    assert SettingsFileName(name, d2)[n..n + 8] == d2[..8];
  }
}
