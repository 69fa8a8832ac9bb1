/** The decision logic of `PluginController`: reading typed settings back
    from the per-printer file, the post-processing script registry, which
    compensation mechanism is active, what the start G-code synchroniser is
    asked to do, and the method-selection handlers whose point is that at
    most one mechanism is ever in use.  Settings files, Qt messages and the
    host application are replaced by values: the file's contents by a map,
    the post-processing plugin by a `Registry` record, shown messages by a
    list of `Notice`s. */
module PluginController {
  import opened Wrappers
  import SkewCalculator
  import GCodeManager

  // ---------------------------------------------------------------------
  // Typed settings (`get_typed_value`)
  // ---------------------------------------------------------------------

  /** A value in the settings dictionary: the defaults hold booleans,
      floats and strings; values read back from the file are strings. */
  datatype Setting = BoolValue(b: bool) | FloatValue(f: real) | TextValue(s: string)

  predicate SameKind(a: Setting, b: Setting) {
    (a.BoolValue? && b.BoolValue?) || (a.FloatValue? && b.FloatValue?) || (a.TextValue? && b.TextValue?)
  }

  /** The host's `float(str)` (`None` where it raises `ValueError`) and
      `str(float)`; both are left abstract. */
  datatype Casts = Casts(parseFloat: string -> Option<real>, showFloat: real -> string)

  /** `str.lower()` on ASCII letters. */
  function LowerChar(c: char): char {
    if 'A' <= c <= 'Z' then (c as int + 32) as char else c
  }

  function Lower(s: string): (r: string)
    ensures |r| == |s|
    ensures forall i :: 0 <= i < |s| ==> r[i] == LowerChar(s[i])
  {
    seq(|s|, i requires 0 <= i < |s| => LowerChar(s[i]))
  }

  /** "true" in any mix of upper and lower case. */
  predicate SpellsTrue(s: string) {
    |s| == 4 && (forall i :: 0 <= i < 4 ==> s[i] == "true"[i] || s[i] == "TRUE"[i])
  }

  /** `value.lower() == 'true'` holds exactly for the spellings of "true". */
  lemma LowerTrue(s: string)
    ensures Lower(s) == "true" <==> SpellsTrue(s)
  {
    if SpellsTrue(s) {
      assert forall i :: 0 <= i < 4 ==> Lower(s)[i] == "true"[i];
    }
    if Lower(s) == "true" {
      forall i | 0 <= i < 4
        ensures s[i] == "true"[i] || s[i] == "TRUE"[i]
      {
        assert LowerChar(s[i]) == "true"[i];
      }
    }
  }

  /** `str(bool)`. */
  function BoolText(b: bool): string {
    if b then "True" else "False"
  }

  /** A value that is not a string: kept when it already has the default's
      kind, otherwise converted with `bool(x)`, `float(x)` or `str(x)`.  None
      of these raises for the three kinds, so the `except` branch never
      returns the default. */
  function Cast(v: Setting, def: Setting, casts: Casts): (r: Setting)
    requires !v.TextValue?
    ensures SameKind(r, def)
    ensures SameKind(v, def) ==> r == v
  {
    match def
    case BoolValue(_) =>
      (match v
       case BoolValue(b) => BoolValue(b)
       case FloatValue(f) => BoolValue(f != 0.0))
    case FloatValue(_) =>
      (match v
       case BoolValue(b) => FloatValue(if b then 1.0 else 0.0)
       case FloatValue(f) => FloatValue(f))
    case TextValue(_) =>
      (match v
       case BoolValue(b) => TextValue(BoolText(b))
       case FloatValue(f) => TextValue(casts.showFloat(f)))
  }

  /** A boolean cast to a float and back is the same boolean, and a boolean
      cast to text reads back as the same boolean. */
  lemma CastBoolRoundTrip(b: bool, x: real, y: bool, casts: Casts)
    ensures Cast(Cast(BoolValue(b), FloatValue(x), casts), BoolValue(y), casts) == BoolValue(b)
    ensures SpellsTrue(Cast(BoolValue(b), TextValue(""), casts).s) <==> b
  {
    BoolTextRead(b);
  }

  /** The value stored under `key`, coerced to the kind of the default. */
  function GetTypedValue(source: map<string, Setting>, key: string, def: Setting, casts: Casts): (r: Setting)
    ensures SameKind(r, def)
    ensures key !in source ==> r == def
    ensures key in source && SameKind(source[key], def) ==> r == source[key]
    ensures key in source && source[key].TextValue? && def.BoolValue? ==>
      (r.b <==> SpellsTrue(source[key].s))
    ensures key in source && source[key].TextValue? && def.FloatValue? ==>
      r == (match casts.parseFloat(source[key].s) case Some(v) => FloatValue(v) case None => def)
  {
    var value := if key in source then source[key] else def;
    var r :=
      match value
      case TextValue(s) =>
        (match def
         case BoolValue(_) => BoolValue(Lower(s) == "true")
         case FloatValue(_) =>
           (match casts.parseFloat(s) case Some(v) => FloatValue(v) case None => def)
         case TextValue(_) => TextValue(s))
      case _ => Cast(value, def, casts);
    LowerTrue(if value.TextValue? then value.s else "");
    r
  }

  /** A string that is not a number leaves the default in place. */
  lemma UnparsableGivesDefault(source: map<string, Setting>, key: string, f: real, casts: Casts)
    requires key in source && source[key].TextValue?
    requires casts.parseFloat(source[key].s).None?
    ensures GetTypedValue(source, key, FloatValue(f), casts) == FloatValue(f)
  {
  }

  // ---------------------------------------------------------------------
  // Controller state, saved and loaded
  // ---------------------------------------------------------------------

  /** The controller's fields that decide the compensation method. */
  datatype Controller = Controller(
    enabled: bool,
    mode: string,
    marlinAdd: bool,
    klipperAdd: bool,
    ppChecked: bool)

  /** `_get_default_settings` for these fields. */
  const Default: Controller := Controller(false, "none", false, false, false)

  const EnabledKey: string := "compensation_enabled"
  const MethodKey: string := "compensation_method"
  const MarlinKey: string := "marlin_add_to_gcode"
  const KlipperKey: string := "klipper_add_to_gcode"
  const PpKey: string := "pp_script_checkbox_state"

  /** The fields as loaded at the top of
      `_update_internal_state_from_printer_config`. */
  function LoadState(source: map<string, Setting>, casts: Casts): (r: Controller)
    ensures source == map[] ==> r == Default
  {
    Controller(
      GetTypedValue(source, EnabledKey, BoolValue(Default.enabled), casts).b,
      GetTypedValue(source, MethodKey, TextValue(Default.mode), casts).s,
      GetTypedValue(source, MarlinKey, BoolValue(Default.marlinAdd), casts).b,
      GetTypedValue(source, KlipperKey, BoolValue(Default.klipperAdd), casts).b,
      GetTypedValue(source, PpKey, BoolValue(Default.ppChecked), casts).b)
  }

  /** The fields as `_save_current_settings` writes them: every value
      through `str`, which is what the file hands back on the next read. */
  function SaveState(c: Controller): (r: map<string, Setting>)
    ensures r.Keys == {EnabledKey, MethodKey, MarlinKey, KlipperKey, PpKey}
    ensures forall k :: k in r ==> r[k].TextValue?
  {
    map[
      EnabledKey := TextValue(BoolText(c.enabled)),
      MethodKey := TextValue(c.mode),
      MarlinKey := TextValue(BoolText(c.marlinAdd)),
      KlipperKey := TextValue(BoolText(c.klipperAdd)),
      PpKey := TextValue(BoolText(c.ppChecked))]
  }

  lemma BoolTextRead(b: bool)
    ensures SpellsTrue(BoolText(b)) <==> b
  {
    if !b {
      assert BoolText(b)[0] == 'F';
    }
  }

  /** Saving and loading again gives back the same controller. */
  lemma SaveLoadRoundTrip(c: Controller, casts: Casts)
    ensures LoadState(SaveState(c), casts) == c
  {
    BoolTextRead(c.enabled);
    BoolTextRead(c.marlinAdd);
    BoolTextRead(c.klipperAdd);
    BoolTextRead(c.ppChecked);
  }

  // ---------------------------------------------------------------------
  // Active mechanisms
  // ---------------------------------------------------------------------

  datatype Flags = Flags(marlin: bool, klipper: bool, pp: bool)

  predicate AtMostOne(f: Flags) {
    !(f.marlin && f.klipper) && !(f.marlin && f.pp) && !(f.klipper && f.pp)
  }

  /** `marlin_active`, `klipper_active` and `pp_script_active` in
      `_update_plugin_menu_dialog_state`. */
  function ActiveFlags(c: Controller): (r: Flags)
    ensures AtMostOne(r)
    ensures (r.marlin || r.klipper || r.pp) ==> c.enabled
    ensures r.marlin ==> c.mode == "marlin"
    ensures r.klipper ==> c.mode == "klipper"
    ensures r.pp ==> c.mode == "postprocessing"
  {
    Flags(
      c.enabled && c.mode == "marlin" && c.marlinAdd,
      c.enabled && c.mode == "klipper" && c.klipperAdd,
      c.enabled && c.mode == "postprocessing" && c.ppChecked)
  }

  /** The arguments `_sync_gcode_based_on_state` hands to the synchroniser:
      the effective method and the two add flags. */
  datatype SyncArgs = SyncArgs(mode: string, addMarlin: bool, addKlipper: bool)

  function SyncArguments(c: Controller): (r: SyncArgs)
    ensures !c.enabled ==> r == SyncArgs("none", false, false)
    ensures !(r.addMarlin && r.addKlipper)
    ensures r.addMarlin <==> c.enabled && c.mode == "marlin" && c.marlinAdd
    ensures r.addKlipper <==> c.enabled && c.mode == "klipper" && c.klipperAdd
  {
    if !c.enabled then SyncArgs("none", false, false)
    else SyncArgs(
      c.mode,
      c.mode == "marlin" && c.marlinAdd,
      c.mode == "klipper" && c.klipperAdd)
  }

  /** The command the synchroniser is asked to keep in the start G-code. */
  function SyncTarget(sk: SkewCalculator.Calculator, c: Controller): Option<string> {
    var a := SyncArguments(c);
    GCodeManager.SelectTarget(sk, a.mode, a.addMarlin, a.addKlipper)
  }

  /** The two derivations agree: the start G-code carries the Marlin line
      exactly when the dialog shows Marlin as active, the Klipper line
      exactly when it shows Klipper, and nothing otherwise. */
  lemma SyncTargetMatchesFlags(sk: SkewCalculator.Calculator, c: Controller)
    ensures ActiveFlags(c).marlin <==> SyncTarget(sk, c) == Some(SkewCalculator.MarlinCommand(sk)) && c.mode == "marlin"
    ensures ActiveFlags(c).klipper <==> SyncTarget(sk, c) == Some(SkewCalculator.KlipperCommand(sk)) && c.mode == "klipper"
    ensures SyncTarget(sk, c).Some? <==> ActiveFlags(c).marlin || ActiveFlags(c).klipper
  {
  }

  // ---------------------------------------------------------------------
  // The post-processing script registry (`_ensure_pp_script_state`)
  // ---------------------------------------------------------------------

  /** What the host's post-processing plugin reports: whether it exists,
      whether this plugin's script is in its active list, and whether the
      script is among the loaded ones it could add. */
  datatype Registry = Registry(present: bool, active: bool, loaded: bool)

  /** Messages the handlers show. */
  datatype Notice = DisabledWarning | MarlinSelected | KlipperSelected | PpSelected | ScriptMissing

  datatype Ensured = Ensured(c: Controller, reg: Registry, ok: bool, notices: seq<Notice>)

  /** Adds or removes the script so that its presence matches `target`.
      When it should be added but is not loaded, the method falls back to
      "none". */
  function EnsurePpScript(c: Controller, reg: Registry, target: bool): (r: Ensured)
    ensures r.reg.present == reg.present && r.reg.loaded == reg.loaded
    ensures r.ok <==> reg.present && (target && !reg.active ==> reg.loaded)
    ensures r.ok ==> r.reg.active == target
    ensures !r.ok ==> r.reg == reg
    ensures reg.present && target && !reg.active && !reg.loaded ==>
      r.c == c.(mode := "none") && r.notices == [ScriptMissing]
    ensures !(reg.present && target && !reg.active && !reg.loaded) ==> r.c == c && r.notices == []
  {
    if !reg.present then Ensured(c, reg, false, [])
    else if target && !reg.active then
      if reg.loaded then Ensured(c, reg.(active := true), true, [])
      else Ensured(c.(mode := "none"), reg, false, [ScriptMissing])
    else if !target && reg.active then Ensured(c, reg.(active := false), true, [])
    else Ensured(c, reg, true, [])
  }

  /** Asking for the state just reached changes nothing. */
  lemma EnsureIdempotent(c: Controller, reg: Registry, target: bool)
    requires EnsurePpScript(c, reg, target).ok
    ensures var e := EnsurePpScript(c, reg, target);
      EnsurePpScript(e.c, e.reg, target) == Ensured(e.c, e.reg, true, [])
  {
  }

  /** Removing the script never touches the controller. */
  lemma EnsureOffKeepsController(c: Controller, reg: Registry)
    ensures EnsurePpScript(c, reg, false).c == c
    ensures EnsurePpScript(c, reg, false).notices == []
  {
  }

  // ---------------------------------------------------------------------
  // Handlers
  // ---------------------------------------------------------------------

  datatype Step = Step(c: Controller, reg: Registry, notices: seq<Notice>)

  /** The common shape of the Marlin and Klipper handlers: when enabled,
      select (or drop) a firmware method, clear the other firmware's flag,
      remove the post-processing script and clear its checkbox. */
  function SelectFirmware(c: Controller, reg: Registry, enable: bool, mode: string, selected: Notice): Step
    requires mode == "marlin" || mode == "klipper"
  {
    if !c.enabled then Step(c, reg, [DisabledWarning])
    else
      var c1 :=
        if enable then c.(mode := mode, marlinAdd := mode == "marlin", klipperAdd := mode == "klipper")
        else c.(mode := "none", marlinAdd := false, klipperAdd := false);
      var e := EnsurePpScript(c1, reg, false);
      EnsureOffKeepsController(c1, reg);
      Step(e.c.(ppChecked := false), e.reg, if enable then [selected] else [])
  }

  /** `_handle_add_marlin_gcode_request`. */
  function HandleAddMarlin(c: Controller, reg: Registry, enable: bool): (r: Step)
    ensures !c.enabled ==> r == Step(c, reg, [DisabledWarning])
    ensures c.enabled && enable ==>
      r.c == Controller(true, "marlin", true, false, false) && r.notices == [MarlinSelected]
    ensures c.enabled && !enable ==> r.c == Controller(true, "none", false, false, false) && r.notices == []
    ensures c.enabled && reg.present ==> !r.reg.active
  {
    SelectFirmware(c, reg, enable, "marlin", MarlinSelected)
  }

  /** `_handle_add_klipper_gcode_request`. */
  function HandleAddKlipper(c: Controller, reg: Registry, enable: bool): (r: Step)
    ensures !c.enabled ==> r == Step(c, reg, [DisabledWarning])
    ensures c.enabled && enable ==>
      r.c == Controller(true, "klipper", false, true, false) && r.notices == [KlipperSelected]
    ensures c.enabled && !enable ==> r.c == Controller(true, "none", false, false, false) && r.notices == []
    ensures c.enabled && reg.present ==> !r.reg.active
  {
    SelectFirmware(c, reg, enable, "klipper", KlipperSelected)
  }

  /** `_handle_toggle_post_processing_script` as written: after turning the
      method on it tests the checkbox it has just set, so the success
      message appears even when the script could not be added and the
      method fell back to "none". */
  function HandleTogglePpAsWritten(c: Controller, reg: Registry, enable: bool): (r: Step)
    ensures c.enabled && enable ==> PpSelected in r.notices
  {
    if !c.enabled then Step(c, reg, [DisabledWarning])
    else if enable then
      var c1 := c.(mode := "postprocessing", marlinAdd := false, klipperAdd := false, ppChecked := true);
      var e := EnsurePpScript(c1, reg, true);
      Step(e.c, e.reg, e.notices + (if e.c.ppChecked then [PpSelected] else []))
    else
      var c1 := c.(mode := "none", marlinAdd := false, klipperAdd := false);
      var e := EnsurePpScript(c1, reg, false);
      Step(e.c.(ppChecked := false), e.reg, e.notices)
  }

  /** The input that shows it: compensation enabled, the script neither
      active nor loaded.  The method ends up "none", the missing-script
      message is shown, and so is the message announcing post-processing. */
  lemma PpAnnouncedAfterFailure()
    ensures var r := HandleTogglePpAsWritten(Default.(enabled := true), Registry(true, false, false), true);
      r.c.mode == "none" && r.notices == [ScriptMissing, PpSelected]
  {
  }

  /** `_handle_toggle_post_processing_script` with the success message
      tied to the outcome of adding the script. */
  function HandleTogglePp(c: Controller, reg: Registry, enable: bool): (r: Step)
    ensures !c.enabled ==> r == Step(c, reg, [DisabledWarning])
    ensures c.enabled ==> !r.c.marlinAdd && !r.c.klipperAdd
    ensures c.enabled && enable ==> r.c.ppChecked
    ensures c.enabled && enable ==>
      (PpSelected in r.notices <==> r.c.mode == "postprocessing" && reg.present)
    ensures c.enabled && enable && reg.present ==>
      (r.c.mode == "postprocessing" <==> r.reg.active)
    ensures c.enabled && !enable ==> r.c == Controller(true, "none", false, false, false) && r.notices == []
  {
    if !c.enabled then Step(c, reg, [DisabledWarning])
    else if enable then
      var c1 := c.(mode := "postprocessing", marlinAdd := false, klipperAdd := false, ppChecked := true);
      var e := EnsurePpScript(c1, reg, true);
      Step(e.c, e.reg, e.notices + (if e.ok then [PpSelected] else []))
    else
      var c1 := c.(mode := "none", marlinAdd := false, klipperAdd := false);
      var e := EnsurePpScript(c1, reg, false);
      EnsureOffKeepsController(c1, reg);
      Step(e.c.(ppChecked := false), e.reg, e.notices)
  }

  /** The two versions differ only in the messages. */
  lemma PpVersionsAgreeOnState(c: Controller, reg: Registry, enable: bool)
    ensures HandleTogglePp(c, reg, enable).c == HandleTogglePpAsWritten(c, reg, enable).c
    ensures HandleTogglePp(c, reg, enable).reg == HandleTogglePpAsWritten(c, reg, enable).reg
  {
  }

  /** `_handle_enable_compensation_toggle`. */
  function HandleEnable(c: Controller, enable: bool): (r: Controller)
    ensures r.enabled == enable
    ensures r.(enabled := c.enabled) == c
  {
    c.(enabled := enable)
  }

  /** Disabling switches every mechanism off; enabling again restores the
      mechanisms that were active before, since the method and flags are
      kept. */
  lemma DisableSwitchesOff(sk: SkewCalculator.Calculator, c: Controller)
    ensures ActiveFlags(HandleEnable(c, false)) == Flags(false, false, false)
    ensures SyncArguments(HandleEnable(c, false)) == SyncArgs("none", false, false)
    ensures SyncTarget(sk, HandleEnable(c, false)).None?
    ensures c.enabled ==> HandleEnable(HandleEnable(c, false), true) == c
  {
  }

  /** Which mechanism each handler leaves active. */
  lemma HandlersSelectOneMechanism(c: Controller, reg: Registry)
    requires c.enabled
    ensures ActiveFlags(HandleAddMarlin(c, reg, true).c) == Flags(true, false, false)
    ensures ActiveFlags(HandleAddKlipper(c, reg, true).c) == Flags(false, true, false)
    ensures reg.present && (reg.active || reg.loaded) ==>
      ActiveFlags(HandleTogglePp(c, reg, true).c) == Flags(false, false, true)
    ensures ActiveFlags(HandleAddMarlin(c, reg, false).c) == Flags(false, false, false)
    ensures ActiveFlags(HandleAddKlipper(c, reg, false).c) == Flags(false, false, false)
    ensures ActiveFlags(HandleTogglePp(c, reg, false).c) == Flags(false, false, false)
  {
  }

  /** When compensation is off, no handler changes the controller or the
      registry. */
  lemma DisabledHandlersInert(c: Controller, reg: Registry, enable: bool)
    requires !c.enabled
    ensures HandleAddMarlin(c, reg, enable).c == c && HandleAddMarlin(c, reg, enable).reg == reg
    ensures HandleAddKlipper(c, reg, enable).c == c && HandleAddKlipper(c, reg, enable).reg == reg
    ensures HandleTogglePp(c, reg, enable).c == c && HandleTogglePp(c, reg, enable).reg == reg
  {
  }

  // ---------------------------------------------------------------------
  // Refreshing (`_update_plugin_menu_dialog_state`)
  // ---------------------------------------------------------------------

  datatype Refreshed = Refreshed(c: Controller, reg: Registry, shown: Flags, target: Option<string>)

  /** Runs only while the dialog is open (`None` otherwise, with nothing
      changed and no start G-code synchronised). It computes the active
      flags, brings the script registry in line with the post-processing
      flag, then derives the start G-code command from the (possibly
      updated) state. */
  function Refresh(sk: SkewCalculator.Calculator, c: Controller, reg: Registry, dialogOpen: bool)
    : (r: Option<Refreshed>)
    ensures r.Some? <==> dialogOpen
    ensures r.Some? ==> r.value.shown == ActiveFlags(c)
    ensures r.Some? ==> r.value.c == c || (r.value.c == c.(mode := "none") && r.value.shown.pp)
    ensures r.Some? && r.value.c != c ==> r.value.target == None
    ensures r.Some? ==> (r.value.target.Some? <==> r.value.shown.marlin || r.value.shown.klipper)
    ensures r.Some? ==> (r.value.c != c <==> r.value.shown.pp && reg.present && !reg.active && !reg.loaded)
    ensures r.Some? ==> r.value.reg.present == reg.present && r.value.reg.loaded == reg.loaded
    ensures r.Some? && reg.present ==> (r.value.reg.active <==> r.value.shown.pp && (reg.active || reg.loaded))
    ensures r.Some? && !reg.present ==> r.value.reg == reg
  {
    if !dialogOpen then None
    else
      var shown := ActiveFlags(c);
      var e := EnsurePpScript(c, reg, shown.pp);
      SyncTargetMatchesFlags(sk, e.c);
      Some(Refreshed(e.c, e.reg, shown, SyncTarget(sk, e.c)))
  }

  /** With the post-processing plugin available, a refresh never leaves the
      script active and a firmware command in the start G-code at once. */
  lemma RefreshNeverDoubleCompensates(sk: SkewCalculator.Calculator, c: Controller, reg: Registry, dialogOpen: bool)
    requires reg.present
    ensures var r := Refresh(sk, c, reg, dialogOpen); r.Some? ==> !(r.value.reg.active && r.value.target.Some?)
  {
  }

  /** After any handler and the refresh that saving triggers (the handlers
      run from the open dialog), at most one mechanism compensates. */
  lemma HandlerThenRefresh(sk: SkewCalculator.Calculator, c: Controller, reg: Registry, enable: bool)
    requires reg.present
    ensures var s := HandleAddMarlin(c, reg, enable); var r := Refresh(sk, s.c, s.reg, true);
      r.Some? && !(r.value.reg.active && r.value.target.Some?)
    ensures var s := HandleAddKlipper(c, reg, enable); var r := Refresh(sk, s.c, s.reg, true);
      r.Some? && !(r.value.reg.active && r.value.target.Some?)
    ensures var s := HandleTogglePp(c, reg, enable); var r := Refresh(sk, s.c, s.reg, true);
      r.Some? && !(r.value.reg.active && r.value.target.Some?)
  {
    var s1 := HandleAddMarlin(c, reg, enable);
    RefreshNeverDoubleCompensates(sk, s1.c, s1.reg, true);
    var s2 := HandleAddKlipper(c, reg, enable);
    RefreshNeverDoubleCompensates(sk, s2.c, s2.reg, true);
    var s3 := HandleTogglePp(c, reg, enable);
    RefreshNeverDoubleCompensates(sk, s3.c, s3.reg, true);
  }
}
