# GIMI Pro: update check and navigation, modelled in Dafny

GIMI Pro is a PySide6 desktop application. Most of `main.py` is Qt layout
and styling. This project models the two pieces of it that carry logic:

- **The self-update check** (`check_for_updates`). It fetches the latest
  GitHub release and normalises the tag by deleting every `v`. It compares
  the tag with the installed version. It picks the first `.exe` asset,
  asks the user, and then either launches `updater.exe` and exits or
  returns. Once its I/O is made into inputs it is a pure decision, modelled
  as the function `UpdateGate.CheckForUpdates`. The HTTP reply, the dialog
  answer and whether `updater.exe` exists are its inputs. Its result is an
  `Outcome`: `NotFetched`, `UpToDate`, `NoAsset`, `Declined`,
  `UpdaterMissing`, `Handoff(args)` or `Failed`.
- **Version ordering** (`packaging.version`, release segment only). This is
  module `Versions`. A version is a dotted sequence of naturals. The parser
  rejects anything else. The comparison is component-wise on integers, with
  the shorter version padded with zeros.
- **The navigation state machine** (`NavigationButton`, `NavigationPanel`,
  `WorkspaceArea` and the wiring in `MainWindow`). This is module
  `Navigation`. These are classes whose methods update fields in place,
  just as the Qt objects do. The panel keeps the invariant that exactly
  the button at `currentIndex` is active. The window keeps the invariant
  that the workspace shows the page of the highlighted button.

Files: `options.dfy` (the shared `Option` type), `versions.dfy`,
`update_gate.dfy` and `navigation.dfy`.

Some behaviour of the code is easy to misread; the model follows the code:

- Tag normalisation deletes every `v` in the tag (`replace('v', '')`), not
  just a leading prefix. So `v1.0-dev` becomes `1.0-de`.
- A newer release with no usable `.exe` asset is not a failure. The code
  simply offers nothing, and the model returns `NoAsset`, not `Failed`.
- A non-200 reply raises nothing and prints nothing further (only the
  opening "Checking for updates..."): the function just ends. The model returns `NotFetched`, kept apart from `Failed`.
- The updater check only tests that `updater.exe` exists, not that it can
  be executed. Its arguments are the relative names `updater.exe` and
  `GIMI_Pro.exe`.
- An invalid version string is a parse failure that is caught, which gives
  `Failed`. This matches `packaging` 22 and later, where `version.parse`
  raises `InvalidVersion`.

## Model

| member | source | states |
|---|---|---|
| Versions.Parse | main.py:343 | a parsed version has at least one component; ParseIff states exactly which strings it accepts and what they mean |
| Versions.ParseIff | main.py:343 | a string parses to v exactly when it is non-empty digit runs joined by '.', whose decimal values are v; any other character, an empty component or a stray dot is a parse error |
| Versions.ParseFormat | main.py:343 | every release segment has a spelling that parses back to exactly that segment |
| Versions.Compare | main.py:343 | equal segments compare Equal, and Equal implies the zero-padded segments agree everywhere; the full order is stated by CompareLessIff, CompareEqualIff, CompareFlip and CompareTransitive |
| Versions.CompareLessIff | main.py:343 | `a < b` exactly when, at the first position where the zero-padded segments differ, a's component is smaller |
| Versions.CompareEqualIff | main.py:343 | `a == b` exactly when the zero-padded segments agree at every position |
| Versions.CompareFlip | main.py:343 | swapping the operands flips Less and Greater and keeps Equal (antisymmetry) |
| Versions.CompareReflexive | main.py:343 | every version equals itself |
| Versions.CompareTransitive | main.py:343 | Less is transitive, so the comparison is a strict total order |
| Versions.NotLessThanEmpty | main.py:343 | no version is below the all-zero version |
| Versions.TrailingZeroIrrelevant | main.py:343 | appending a zero component never changes the order ("1.2.0" == "1.2") |
| Versions.NumericNotLexicographic | main.py:343 | "1.10.0" parses to [1,10,0] and orders above "1.9.9" |
| Versions.NonNumericRejected | main.py:343 | "abc", "", "1..2" and "1.2." are parse errors |
| UpdateGate.StripV | main.py:339 | the normalised tag contains no 'v', is no longer than the tag, and keeps every other character as often as the tag has it |
| UpdateGate.StripVNoV | main.py:339 | a tag without 'v' is left unchanged |
| UpdateGate.StripVIdempotent | main.py:339 | normalising twice equals normalising once |
| UpdateGate.StripVAppend | main.py:339 | normalising distributes over concatenation, so other characters keep their order |
| UpdateGate.StripVEverywhere | main.py:339 | a 'v' anywhere in the tag is deleted: "v1.0-dev" becomes "1.0-de" |
| UpdateGate.SelectAsset | main.py:344-348 | a selected URL belongs to the first asset whose name ends in ".exe"; selecting nothing means every name is present and none ends in ".exe" (both directions in SelectedIff and NoneSelectedIff) |
| UpdateGate.SelectedIff | main.py:344-348 | the URL chosen is exactly that of the first asset, in list order, whose name ends in ".exe" |
| UpdateGate.NoneSelectedIff | main.py:344-348 | nothing is chosen exactly when every asset has a name and none ends in ".exe" |
| UpdateGate.LaterAssetsIgnored | main.py:345-348 | once an installer is found, assets after it change nothing (the `break`) |
| UpdateGate.Decide | main.py:339-368 | UpToDate only when the tag is not newer; Declined, UpdaterMissing and Handoff only when it is newer, with the matching dialog answer and updater presence; a Handoff carries exactly [updater.exe, a non-empty URL, GIMI_Pro.exe] (exact conditions in HandoffIff and FailedIff) |
| UpdateGate.CheckForUpdates | main.py:331-370 | NotFetched exactly for a reply whose status is not 200; a Handoff needs a 200 reply with a body, a newer tag, a yes answer and the updater present |
| UpdateGate.NothingUnlessNewer | main.py:343-368 | NoAsset, Declined, UpdaterMissing and Handoff occur only when both versions parse and the tag is strictly newer |
| UpdateGate.NotNewerIsUpToDate | main.py:343-368 | with both versions parseable, the result is UpToDate exactly when the tag is not strictly newer |
| UpdateGate.HandoffIff | main.py:343-366 | the updater is launched exactly when the tag is newer, the first ".exe" asset has a non-empty URL, the user confirmed and updater.exe exists; the arguments are then exactly [updater.exe, url, GIMI_Pro.exe] |
| UpdateGate.PromptedIff | main.py:343-357 | the confirmation dialog is shown exactly when both versions parse, the tag is newer and the first ".exe" asset has a non-empty URL |
| UpdateGate.NoLaunchWithoutConsent | main.py:357-366 | among the outcomes that follow the dialog (characterised by PromptedIff), Declined is the one for a no, UpdaterMissing the one for a yes without updater.exe, and Handoff needs a yes with the updater present |
| UpdateGate.AnswersIrrelevantUnlessPrompted | main.py:350-357 | when no dialog is shown, the dialog answer and the updater's presence cannot change the outcome |
| UpdateGate.FailedIff | main.py:333-370 | Failed exactly on a network error, a body that is not an object, a missing tag, an unparseable version, or, when the tag is newer, a missing or malformed asset list; no other path fails |
| UpdateGate.NonOkIgnored | main.py:337 | a reply whose status is not 200 ends the check silently, whatever its body |
| UpdateGate.EqualVersionIsUpToDate | main.py:339-343 | tag "v2.0.0" against installed "2.0.0" is UpToDate, whatever the assets |
| UpdateGate.NewerWithInstallerHandsOff | main.py:343-366 | tag "v2.1.0" against "2.0.0" with one ".exe" asset, confirmed, hands that asset's URL to the updater |
| UpdateGate.NewerWithoutInstallerOffersNothing | main.py:344-350 | the same newer tag with only a ".zip" asset gives NoAsset |
| Navigation.NavigationButton.constructor | main.py:103-104 | a new button is inactive and wears the default style |
| Navigation.NavigationButton.SetActive | main.py:106-108 | sets the flag and wears the active style exactly when active |
| Navigation.NavigationButton.Enter | main.py:110-112 | hovering restyles an inactive button to hover and leaves an active one untouched |
| Navigation.NavigationButton.Leave | main.py:114-116 | leaving restyles an inactive button to default and leaves an active one untouched |
| Navigation.NextIndex | main.py:204 | the Down target stays in [0, n) and is the next index, wrapping from n-1 to 0 |
| Navigation.PrevIndex | main.py:206 | the Up target stays in [0, n) and is the previous index, wrapping from 0 to n-1 |
| Navigation.UpUndoesDown | main.py:202-206 | Up after Down, and Down after Up, return to the same index |
| Navigation.DownTimesWraps | main.py:203-204 | k ≤ n presses of Down from i land on i+k, wrapped once past the end |
| Navigation.DownCycles | main.py:203-204 | n presses of Down return to the start and no fewer do |
| Navigation.FirstWithId | main.py:196-200 | the index found is the first whose id matches; no match means no button carries the id |
| Navigation.NavigationPanel.constructor | main.py:136-182 | builds the six buttons in order with their ids and texts; the first is current, active and wears the active style, every other one the default style |
| Navigation.NavigationPanel.ActivateIndex | main.py:184-194 | afterwards currentIndex is the index, only that button is active and wears the active style, all others wear the default; emits its id and text |
| Navigation.NavigationPanel.ActivateById | main.py:196-200 | activates the first button with the id, which alone wears the active style while all others wear the default, and emits its id and text; an unknown id changes no index or style and emits nothing |
| Navigation.NavigationPanel.KeyPress | main.py:202-208 | Down and Up move the index cyclically, restyle every other button to the default and emit the new button; other keys change no index or style and emit nothing |
| Navigation.AllPages | main.py:222-257 | once created, every navigation id has a page |
| Navigation.WorkspaceArea.constructor | main.py:213-233 | all six pages exist, the dashboard is shown, no page is recorded as current |
| Navigation.WorkspaceArea.CreateOtherPages | main.py:240-257 | fills in the five pages other than the dashboard and leaves what is shown alone |
| Navigation.WorkspaceArea.SwitchPage | main.py:259-265 | a known, created page becomes current and shown; anything else changes nothing; the students page is reloaded exactly when it is switched to |
| Navigation.MainWindow.constructor | main.py:314-321 | the dashboard button is highlighted and wears the active style while every other button wears the default; the dashboard is shown, with no page recorded as current; the students page exists; the shown page is the highlighted button's |
| Navigation.MainWindow.OnNavigationChanged | main.py:323-324 | a signal for a known, created page makes it current and shown; no signal, or an unknown page, changes nothing; the students page reloads its years exactly when the signal names it |
| Navigation.MainWindow.OnKey | main.py:202-208 | Down and Up move the highlight cyclically, restyle every other button to the default and make the highlighted button's page current; other keys change no index, style or page; the students page is never replaced and reloads its years exactly when Down or Up lands on it; the shown page always follows the highlight |
| Navigation.MainWindow.OnClick | main.py:162-164 | a click on an id makes the first button with that id highlighted, restyles every other button to the default, and makes its page current and shown; an unknown id changes no index, style or page; the students page is never replaced and reloads its years exactly when its button is clicked |

## Left out

- The HTTP GET, its 5-second timeout, and JSON decoding (main.py:334-338) are network I/O. Their results are the `Reply` input. A timeout or connection error is `NetworkError`, and a body that is not a JSON object is `None`.
- The `print` calls are console output only and are not modelled.
- `ModernMessageDialog` (both the confirmation and the error dialog) is UI. The confirmation answer is a boolean input. The error dialog is the `UpdaterMissing` outcome.
- `os.path.exists("updater.exe")` is a filesystem query and is a boolean input.
- `subprocess.Popen` and `sys.exit` are process control and are represented by the `Handoff(args)` outcome.
- UpdateGate.Decide: a failing `Popen` would raise `OSError`, which is caught, so the source would end in `Failed`. The model assumes the launch succeeds and returns `Handoff`.
- Versions.Parse: accepts only dot-separated digit runs. `packaging.version` also accepts other forms, which are parse errors here. These are pre-release, post-release, dev and local segments, epochs, surrounding whitespace, and a leading `v` or `V`. So such a version gives `Failed` in the model where the source would compare it. Examples: a tag such as `V2.1.0`, whose upper-case `V` survives `replace('v', '')`, or an installed version written `v2.0.0`, which is never stripped.
- UpdateGate.Decide: a `browser_download_url` that is falsy (null, an empty string, `0`, `false`, `[]` or `{}`) is represented as `Some("")`. The source treats all of them as "no URL" at main.py:350, which gives `NoAsset`. Only a missing key is `None`, and it gives `Failed`.
- UpdateGate.Decide: an `assets` value that iterates over nothing is represented as `Some([])`, giving `NoAsset`. Examples are an empty list, object or string. A non-empty object or string iterates over strings, so each element is an asset with no fields, giving `Failed`.
- UpdateGate.Decide: a URL that is truthy but not a string (a number, a list) is not modelled. In the source it passes `if download_url:` (main.py:350), so the dialog is shown. After a yes with updater.exe present, `subprocess.Popen` (main.py:365) raises `TypeError` on it, which is caught at main.py:369: the result is `Failed` and nothing is launched.
- The Qt widgets, layouts, stylesheets, painting, cursor and focus policy (main.py:49-129, 143-180, 235-238, 269-321) are UI. A style is the enum `Style`, and a page widget is an opaque `Page` value.
- `StudentsPage.load_year_options` and the page classes are foreign code, imported from modules that are not part of this model. The reload is the `reloadedYears` result of `SwitchPage`, passed on by `MainWindow.OnNavigationChanged`, `OnKey` and `OnClick`.
- `get_base_path`, `get_data_path`, the `ctypes` taskbar call, `check_alerts` and the `QTimer` scheduling (main.py:28-45, 299, 326-327, 374-396) are filesystem, OS and timer plumbing.
- Navigation.NavigationPanel.ActivateIndex: requires an index in [0, n). Every caller passes one. For other indexes the source behaves differently. For -n <= index < 0, Python's negative indexing at main.py:189 activates button n+index and leaves `current_index` negative. For index >= n or index < -n it clears all flags and then raises `IndexError`.
- Navigation.NavigationPanel.KeyPress: passing other keys on to `QWidget.keyPressEvent` is Qt behaviour and is not modelled.
