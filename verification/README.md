# Print skew compensation, modelled in Dafny

This project models the core of the PrintSkewCompensation plugin for the Cura
slicer and proves properties of the model. The plugin corrects the skew of a
3D printer, meaning axes that are not exactly perpendicular. The user prints
a calibration square, then measures two diagonals (AC, BD) and one side (AD)
in each of the planes XY, XZ and YZ. From those nine readings the plugin
compensates in one of three ways:

- It puts a Marlin `M852 I… J… K…` line in the printer's start G-code.
- It puts a Klipper `SET_SKEW XY=… XZ=… YZ=…` line in the start G-code.
- It enables a post-processing script that shears the X and Y coordinates of
  every move in the sliced G-code.

The modules follow the plugin's files:

- `SkewCalculator` (`skew_calculator.dfy`): `SkewCalculator.py`.
  - The nine readings and the three Marlin factors I, J, K, with the quarter
    formula (AC² − BD²)/(4·AD²).
  - The two command lines.
  - The unused half-formula `_calculate_skew_factor`.
  - The Marlin and Klipper lines come with parsers. The proofs show that each
    line carries exactly its numbers, in order.
- `SkewScript` (`compensation.dfy`): the post-processing script
  `scripts/PrintSkewCompensationCKM.py`.
  - The guarded geometric factor `calculate_skew_factor`.
  - The G-code pass `cura_compensation`, over a sequence of layers. Each layer
    is a string of `"\n"`-separated lines, and the height Z carries across
    lines and layers.
- `GCodeManager` (`gcode_manager.dfy`): the line filter of `sync_start_gcode`.
  - It chooses the required command.
  - It keeps every line the plugin does not own.
  - It drops the plugin's stale lines.
  - It appends the required line if it is missing.
  - It decides whether to write.
- `FileNames` (`file_names.dfy`): `_sanitized_settings_file_name`.
  - `PluginController.py` and the post-processing script each define it, and
    the two definitions are identical. One definition serves both.
- `PluginController` (`plugin_controller.dfy`): the controller's decision
  logic.
  - Typed settings (`get_typed_value`), and saving and loading the
    method-selection fields.
  - The active flags and the arguments passed to the synchroniser.
  - The post-processing registry update `_ensure_pp_script_state`.
  - The four `_handle_*` handlers and the refresh that follows them.
- Support modules:
  - `Wrappers`: `Option`.
  - `Text`: Python's `strip`, `split`, `splitlines`, `join`, `replace`,
    `startswith` and `endswith` on `seq<char>`.
  - `Decimal`: Python's `round(x, n)` and `f"{x:.nf}"` as round-half-even on
    exact reals, with a parser for the fixed-point text.
  - `Maths`: nonlinear helper facts, and the record of uninterpreted
    `sqrt`/`acos`/`tan`/`pi`.

Python floats are modelled as Dafny `real`s.

Several host functions are parameters of the model rather than definitions:

- The post-processing host's `getValue` and `str(float)` are fields of a
  `Host` record.
- The settings file's `float(str)` is a field of a `Casts` record.
- The SHA-256 hex digest of the printer name is a plain string parameter.

Two facts about the code are worth knowing when reading the model:

- Readings (150, 130, 100) give the factor (150² − 130²)/(4·100²) = 0.14,
  proved by `SkewCalculator.WorkedExample`.
- When a reading is not a number, the Klipper line becomes the fixed text
  `SET_SKEW ; Error: Invalid measurements (PrintSkewCompensation)`. That text
  does not contain `; PrintSkewCompensation`, so the synchroniser does not
  treat it as its own line (`GCodeManager.KlipperErrorNotOwned`).
  - Once written, a later sync keeps it like any foreign line.

## Model

| member | source | states |
|---|---|---|
| SkewCalculator.PlaneFactor | SkewCalculator.py:69-97 | a plane whose readings are not all numbers, or whose AD is not positive, gets factor exactly 0.0; otherwise the factor times 4·AD² is AC² − BD² |
| SkewCalculator.PlaneFactorSign | SkewCalculator.py:74 | the factor is positive exactly when AC is the longer diagonal and zero exactly when the diagonals are equal |
| SkewCalculator.EqualDiagonalsNoSkew | SkewCalculator.py:74 | equal diagonals give no skew |
| SkewCalculator.SwapDiagonalsNegates | SkewCalculator.py:74 | swapping AC and BD negates the factor, in the AD ≤ 0 and non-number cases too |
| SkewCalculator.New | SkewCalculator.py:19-31 | the defaults 141.42/141.42/100 in every plane give I = J = K = 0 |
| SkewCalculator.CalculateSkewFactors | SkewCalculator.py:64-97 | the readings are untouched, and each of I, J, K agrees with its own plane's formula |
| SkewCalculator.SetMeasurements | SkewCalculator.py:53-62 | all nine readings are stored and the factors agree with them |
| SkewCalculator.SetMeasurementsForgets | SkewCalculator.py:53-62 | the result does not depend on the earlier state |
| SkewCalculator.PlanesIndependent | SkewCalculator.py:69-97 | replacing the XZ readings, even with invalid ones, leaves I and K alone |
| SkewCalculator.GetSkewFactors | SkewCalculator.py:135 | returns exactly (I, J, K) |
| SkewCalculator.MarlinCommand | SkewCalculator.py:145 | the line starts with `M852 I` and ends with ` ; PrintSkewCompensation` |
| SkewCalculator.MarlinRoundTrip | SkewCalculator.py:145 | parsing the M852 line gives back I, J and K, in that order, each rounded to eight decimals |
| SkewCalculator.PlaneTextRoundTrip | SkewCalculator.py:159-161 | one plane's `ac,bd,ad` text parses back to the three readings rounded to three decimals |
| SkewCalculator.KlipperCommand | SkewCalculator.py:158-165 | the line starts with `SET_SKEW `; it is the fixed error text exactly when some reading is not a number, and otherwise starts with `SET_SKEW XY=` and ends with ` ; PrintSkewCompensation` |
| SkewCalculator.KlipperRoundTrip | SkewCalculator.py:158-165 | with numeric readings the SET_SKEW line parses back to the XY, XZ, YZ readings at three decimals; otherwise it is the fixed error line |
| SkewCalculator.KlipperIgnoresFactors | SkewCalculator.py:158-162 | the Klipper line depends only on the raw readings, not on I/J/K |
| SkewCalculator.SkewAngle | SkewCalculator.py:117-123 | AD = 0 gives 0; otherwise the result is acos of the clamped half-formula argument, in degrees |
| SkewCalculator.HalfArgumentIsTwiceFactor | SkewCalculator.py:74 | the half-formula argument is exactly twice the quarter-formula factor |
| SkewCalculator.SquareIsNinetyDegrees | SkewCalculator.py:117-123 | equal diagonals give an angle of 90 degrees |
| SkewCalculator.WorkedExample | SkewCalculator.py:74 | readings (150, 130, 100) give factor 0.14 |
| SkewScript.Guards | scripts/PrintSkewCompensationCKM.py:305-324 | each rejection holds exactly under its condition, in the source's order: a non-positive reading, then a negative root term, then a zero denominator `2·ab·ad`, then an argument outside [−1, 1]; every other input is accepted, with an argument in [−1, 1] that times the denominator gives AC² − ab² − AD² |
| SkewScript.SkewFactor | scripts/PrintSkewCompensationCKM.py:305-327 | 0.0 on every rejection; otherwise tan(π/2 − acos(arg)) |
| SkewScript.ArgumentSimplified | scripts/PrintSkewCompensationCKM.py:310-321 | with a true square root, the argument times 4·ab·ad equals AC² − BD² |
| SkewScript.DenominatorZeroIffDegenerate | scripts/PrintSkewCompensationCKM.py:314-319 | for positive readings the zero-denominator rejection happens exactly when the root term is zero |
| SkewScript.SquareHasNoSkew | scripts/PrintSkewCompensationCKM.py:305-327 | equal diagonals give factor 0 |
| SkewScript.AcceptedFactor | scripts/PrintSkewCompensationCKM.py:305-327 | with a true square root, positive readings, a positive root term and (AC² − BD²)/(4·ab·AD) in [−1, 1], the guards accept that argument and the factor is tan(π/2 − acos) of it |
| SkewScript.OutOfRangeRejected | scripts/PrintSkewCompensationCKM.py:321-324 | an argument outside [−1, 1] is rejected with 0.0, not clamped |
| SkewScript.ShearX | scripts/PrintSkewCompensationCKM.py:364-365 | the corrected X, rounded twice to three decimals, is within 0.001 of x − y·xy − z·xz |
| SkewScript.ShearY | scripts/PrintSkewCompensationCKM.py:366 | the corrected Y, rounded once, is within 0.0005 of y − z·yz |
| SkewScript.NoSkewOnlyRounds | scripts/PrintSkewCompensationCKM.py:364-366 | with zero factors the coordinates are only rounded to three decimals |
| SkewScript.Read | scripts/PrintSkewCompensationCKM.py:347-361 | a stated X, Y or Z reads as its value; a missing X or Y reads as 0, not as the previous position; a missing Z keeps the carried height |
| SkewScript.RewriteLine | scripts/PrintSkewCompensationCKM.py:346-376 | a line not starting with G0/G1 is untouched and does not change the height; layers 0 and 1 only track; a move without X and Y is untouched |
| SkewScript.RewriteLineShears | scripts/PrintSkewCompensationCKM.py:364-376 | on a rewritten move line, where the line held `X<old>` it now holds `X` followed by the printed sheared X; likewise for Y with the sheared Y, both at the height the line reads |
| SkewScript.RewriteLines | scripts/PrintSkewCompensationCKM.py:345-376 | one output line per input line (what each one is: `RewriteLinesExact`) |
| SkewScript.RewriteLinesExact | scripts/PrintSkewCompensationCKM.py:345-376 | each line is rewritten with the Z of the last earlier move line that stated one, and the loop hands on that height |
| SkewScript.HeightIgnoresRewrite | scripts/PrintSkewCompensationCKM.py:360-361 | the tracked height does not depend on the factors or on whether the layer is rewritten |
| SkewScript.NonMovesUnchanged | scripts/PrintSkewCompensationCKM.py:346 | every non-move line of a layer comes back unchanged |
| SkewScript.TrackOnlyKeepsLines | scripts/PrintSkewCompensationCKM.py:369-370 | a layer that is only tracked comes back line for line |
| SkewScript.CuraCompensation | scripts/PrintSkewCompensationCKM.py:335-378 | the number of layers is preserved |
| SkewScript.CuraLayerLines | scripts/PrintSkewCompensationCKM.py:337-377 | output layer i has as many lines as input layer i, and line k is input line k through the one-line rewrite, at the height of the last earlier move that stated a Z, rewritten exactly when i ≥ 2 |
| SkewScript.FirstLayersUnchanged | scripts/PrintSkewCompensationCKM.py:341-377 | layers 0 and 1 come back identical: they are split, only tracked (lines 369-370), and joined again |
| SkewScript.LayerLinesKept | scripts/PrintSkewCompensationCKM.py:342-377 | splitting a rewritten layer gives exactly its rewritten lines, one per input line |
| SkewScript.LineCountsKept | scripts/PrintSkewCompensationCKM.py:341-377 | every layer keeps its number of lines |
| SkewScript.RewriteLayersExact | scripts/PrintSkewCompensationCKM.py:337-377 | layer i is rewritten from the height all earlier layers left behind, and only when i ≥ 2 |
| SkewScript.RewriteLayers | scripts/PrintSkewCompensationCKM.py:337-377 | one output layer per input layer (what each one is: `RewriteLayersExact`) |
| GCodeManager.SelectTarget | GCodeManager.py:91-95 | the Marlin line exactly when the method is "marlin" and its flag is set; the Klipper line likewise; nothing otherwise |
| GCodeManager.Classify | GCodeManager.py:103-120 | a line is owned exactly when its stripped form starts with M852 or SET_SKEW and contains `; PrintSkewCompensation`; every other line is foreign; an owned line is current exactly when a non-empty target is set and the stripped line equals it |
| GCodeManager.FilterLines | GCodeManager.py:103-120 | the kept lines are the input lines that are foreign or current, in order; a removal happened exactly when a stale owned line existed |
| GCodeManager.SyncLines | GCodeManager.py:103-130 | the target is appended exactly when it is present and no kept line strips to it; the output is the kept lines followed by that append |
| GCodeManager.SyncStartGcode | GCodeManager.py:133-139 | writes exactly when a line was added or removed and the joined lines differ from the original text; a write stores that joined text, no write leaves the text alone |
| GCodeManager.ForeignLinesKept | GCodeManager.py:109-110 | the foreign lines of the output are exactly the foreign lines of the input, in order |
| GCodeManager.NoTargetRemovesOwned | GCodeManager.py:117-120 | with no target every owned line is removed and nothing else is |
| GCodeManager.OwnedLinesMatchTarget | GCodeManager.py:113-120 | every owned line left in the output strips to the target |
| GCodeManager.TargetPresentAfter | GCodeManager.py:124-130 | after a sync some line strips to the target |
| GCodeManager.SyncLinesIdempotent | GCodeManager.py:113-130 | filtering the output again adds and removes nothing |
| GCodeManager.SyncIdempotent | GCodeManager.py:103-139 | a second sync of the written text never writes |
| GCodeManager.MarlinCommandOwned | GCodeManager.py:103-107 | the Marlin command is recognised as the plugin's own line |
| GCodeManager.KlipperTextOwned | GCodeManager.py:103-107 | a well-formed SET_SKEW line is recognised as the plugin's own |
| GCodeManager.KlipperErrorNotOwned | GCodeManager.py:103-107 | the Klipper error line is not recognised as the plugin's own |
| GCodeManager.TargetWellFormed | GCodeManager.py:91-95 | every target is a single line with no outer whitespace |
| GCodeManager.SyncSettingsIdempotent | GCodeManager.py:86-139 | for any calculator and settings, syncing twice writes at most once |
| FileNames.SafeName | scripts/PrintSkewCompensationCKM.py:78-79 | the safe part uses only `[A-Za-z0-9._-]`, has no `__`, and has no `_` at either end |
| FileNames.SafeNameFixed | scripts/PrintSkewCompensationCKM.py:78-79 | a name that is already safe is left unchanged |
| FileNames.SafeNameIdempotent | PluginController.py:125-126 | sanitising twice is sanitising once |
| FileNames.SafeNameKeepsCharacters | PluginController.py:125-126 | apart from underscores, the safe part is the name with each disallowed character dropped and the rest in order |
| FileNames.SettingsFileName | PluginController.py:124-128 | the file name is the safe part, `_`, the first eight digest characters (all of them if fewer) and `.cfg` |
| FileNames.FileNameSeparatesDigests | scripts/PrintSkewCompensationCKM.py:80-81 | names whose digests differ in the first eight characters get different files |
| PluginController.LowerTrue | PluginController.py:154-155 | `lower() == 'true'` holds exactly for the case-insensitive spellings of "true" |
| PluginController.GetTypedValue | PluginController.py:148-173 | the result has the default's kind; a missing key gives the default; a value of the right kind is returned as is; text becomes a bool exactly when it spells "true"; text becomes a float through parsing, or the default when parsing fails |
| PluginController.UnparsableGivesDefault | PluginController.py:156-164 | a float setting whose text does not parse yields the default |
| PluginController.Cast | PluginController.py:165-173 | a non-text value keeps its value when it has the default's kind and is otherwise converted to that kind |
| PluginController.CastBoolRoundTrip | PluginController.py:165-173 | a boolean converted to a float and back, or to text and read back, is the same boolean |
| PluginController.LoadState | PluginController.py:177-181 | with no settings the controller takes the defaults |
| PluginController.SaveState | PluginController.py:210-224 | exactly the five method-selection keys are written, each as text |
| PluginController.SaveLoadRoundTrip | PluginController.py:177-181 | saving the fields as `str` text (lines 66 and 210-224) and loading them again gives back the same controller |
| PluginController.ActiveFlags | PluginController.py:312-314 | at most one mechanism is active; each needs compensation enabled and its own method |
| PluginController.SyncArguments | PluginController.py:394-411 | disabled gives ("none", false, false); add-Marlin needs enabled, method "marlin" and its flag, and add-Klipper likewise; never both |
| PluginController.SyncTargetMatchesFlags | PluginController.py:390-411 | the start G-code target is the Marlin line exactly when Marlin is shown active (lines 312-313), the Klipper line exactly when Klipper is, and nothing otherwise |
| PluginController.EnsurePpScript | PluginController.py:342-388 | success means the plugin exists and the script ends in the requested state; failing to add an unloaded script resets the method to "none" and shows the missing-script message; in every other case the controller is unchanged and nothing is shown |
| PluginController.EnsureIdempotent | PluginController.py:360-386 | after success, asking again for the same state changes nothing |
| PluginController.EnsureOffKeepsController | PluginController.py:378-386 | removing the script never changes the controller or shows a message |
| PluginController.HandleAddMarlin | PluginController.py:413-442 | disabled: nothing changes and a warning is shown; enable: method "marlin", its flag set, Klipper and post-processing cleared, the script removed; disable: method "none" and every flag cleared |
| PluginController.HandleAddKlipper | PluginController.py:445-472 | the same for Klipper |
| PluginController.HandleTogglePp | PluginController.py:475-500 | disabled: nothing changes; enable: both firmware flags cleared, the checkbox set; with the post-processing plugin present, the method stays "postprocessing" exactly when the script ends up active, and success is announced exactly then; disable: method "none" and every flag cleared |
| PluginController.HandleTogglePpAsWritten | PluginController.py:482-490 | when enabled, turning post-processing on always announces success |
| PluginController.PpAnnouncedAfterFailure | PluginController.py:482-490 | with the script not loaded, the method falls back to "none" but success is still announced |
| PluginController.PpVersionsAgreeOnState | PluginController.py:475-500 | the corrected handler differs from the written one only in its messages |
| PluginController.HandleEnable | PluginController.py:502-504 | only the enabled flag changes |
| PluginController.DisableSwitchesOff | PluginController.py:502-504 | disabling deactivates every mechanism of lines 312-314 and empties the sync target of lines 394-411; enabling again restores the previous state |
| PluginController.HandlersSelectOneMechanism | PluginController.py:413-500 | after each enabling handler exactly the chosen mechanism is active (for post-processing, when the script is active or loaded); after a disabling one, none is |
| PluginController.DisabledHandlersInert | PluginController.py:413-500 | while compensation is disabled no handler changes the state or the registry |
| PluginController.Refresh | PluginController.py:307-318 | runs exactly when the dialog is open (line 308), so a refresh while the dialog is closed does nothing; shows the active flags; with the post-processing plugin present, the script ends up active exactly when post-processing is shown active and the script was active or loadable; the controller changes exactly when post-processing is shown but the script is neither active nor loaded (the "none" fallback), and then no start G-code target is left; the target is set exactly when a firmware mechanism is shown active |
| PluginController.RefreshNeverDoubleCompensates | PluginController.py:307-318 | with the post-processing plugin present, a refresh never leaves the script active while a firmware command is the start G-code target |
| PluginController.HandlerThenRefresh | PluginController.py:307-318 | with the post-processing plugin present, after any handler and the refresh its save triggers (line 205) at most one mechanism compensates |
| Decimal.RoundTo | scripts/PrintSkewCompensationCKM.py:364-366 | `round(x, n)` lies within half a unit of the n-th decimal of x |
| Decimal.RoundToGrid | scripts/PrintSkewCompensationCKM.py:364-366 | `round(x, n)` is a whole number k of units 10⁻ⁿ, k is within ½ of x·10ⁿ, and on a tie k is even |
| Decimal.RoundToIdempotent | scripts/PrintSkewCompensationCKM.py:364-365 | rounding an already rounded value to the same digits changes nothing |
| Decimal.FormatFixed | SkewCalculator.py:145 | `:.nf` text has a point, n digits after it, and a leading minus exactly for negative values |
| Decimal.FormatFixedRoundTrip | SkewCalculator.py:145 | parsing the `:.nf` text (here and at lines 159-161) gives the value rounded to n decimals |
| Text.SplitLinesJoin | GCodeManager.py:103-137 | splitting line-break-free lines joined with `\n` gives back the lines, less a trailing empty one |
| Text.SplitJoin | scripts/PrintSkewCompensationCKM.py:342-377 | splitting a join of newline-free lines gives back the lines |
| Text.ReplaceAbsent | scripts/PrintSkewCompensationCKM.py:373-376 | replacing a word that does not occur changes nothing |
| Text.ReplaceInserts | scripts/PrintSkewCompensationCKM.py:373-376 | when the word occurs, the result contains its replacement |
| Text.ReplaceKeeps | scripts/PrintSkewCompensationCKM.py:373-376 | a word that no occurrence of the pattern can overlap survives the replacement, so replacing Y keeps the new X |

## Left out

- Binary floating point. Floats are exact reals, so there is no negative zero, NaN or infinity, and no representation error in `round` or `:.nf`. Both are modelled as exact round-half-even at the given number of decimals.
- `Script.getValue` and `str(float)`. Both are abstract functions in `SkewScript.Host`, so the text of a rewritten coordinate is whatever the host prints.
- `float(str)` in the settings reader. It is an abstract partial function; the text "nan" or "inf" cannot be a real.
- `math.sqrt`, `math.acos`, `math.tan` and `math.pi`. They are uninterpreted. The guards and the formulas fed to them are verified (`SkewScript.AcceptedFactor` gives the factor as `tan(π/2 − acos(…))` of the simplified argument); nothing is proved about the values `acos` and `tan` return beyond the two facts stated as `Maths.Trig.SquareRoot` and `Maths.Trig.RightAngle`.
- SHA-256. The hex digest is a parameter of `FileNames.SettingsFileName`.
- PluginController.LowerTrue: `str.lower()` is modelled on ASCII letters only. No non-ASCII character lowercases to one of `t`, `r`, `u`, `e`, so the comparison with "true" is unaffected.
- The `except` branches of `get_typed_value` (160-164, 170-173) cannot be reached with the bool/float/str defaults, apart from a float that fails to parse. The `target_type(...)` fallback for other default types is not modelled.
- Settings-file I/O: `configparser`, `%` escaping, key lower-casing and `os.path`. The file's contents are a map of strings. `SaveState`/`LoadState` cover only the method-selection fields; the nine readings go through the same float path of `GetTypedValue`.
- `_ensure_pp_script_state`: moving the added script to the front of the script list, `writeScriptsToStack`, and the `except` branch that returns False with a message. The registry is a record of three booleans.
- `Logger` and `Message`. Log lines are not modelled. Shown messages are `Notice` values without text, title or lifetime.
- `_save_current_settings` writing the file, and the dialog's `update_display`. The refresh that saving triggers is `PluginController.Refresh`, and the dialog instance is reduced to the flag `dialogOpen`.
- `sync_start_gcode` before line 86: finding the settings container, and the early return when no command can be generated. The `setProperty` write becomes the `write` flag.
- The post-processing script's `execute`, `getSettingDataString`, and its settings-file reading. The dialogs (`PluginMenuDialog.py`, `MeasurementDialogUI.py`), the file copying in `__init__.py`, and the styling in `PluginConstants.py`.
- SkewScript.RewriteLine: the shear is stated as containment (`RewriteLineShears`): the line holds `X<new>` and `Y<new>` wherever it held `X<old>` and `Y<old>`. The exact text of the result, with every occurrence replaced and the rest kept, is not spelled out.
- SkewScript.Sane: the only facts assumed about `str(float)` are that it contains no newline, no `X` and no `Y`.
- SkewScript.CuraCompensation: the height before the first move is the integer 0 in the source and 0.0 here. The two print differently only through `str`, and that is abstract.

## Findings

| source | as written | input that shows it | evidently intended | confidence | as-written member | corrected member |
|---|---|---|---|---|---|---|
| PluginController.py:483-490 | after setting `pp_script_checkbox_state = True` and calling `_ensure_pp_script_state(True)`, the handler tests the checkbox it has just set, so the success message is always shown | compensation enabled, PostProcessingPlugin present, script neither active nor loaded, enable = True: the method falls back to "none" and "could not be found" is shown, then "method set to Cura Post Processing" | announce success only when `_ensure_pp_script_state(True)` returned True | medium, not executed | PluginController.PpAnnouncedAfterFailure | PluginController.HandleTogglePp |
