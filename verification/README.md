# Digital Clock legacy skins, as a Dafny model

Digital Clock draws the time with a *skin*. A legacy skin is a folder holding one image per
display character. The ten digits and the separator `:` are required. The second separator
(a space) and the `am`/`pm` markers are optional. The folder may also hold a `skin.ini`
whose `[info]` section carries metadata and whose `[files]` section names the images.

This project models the code that turns such a folder into a skin:

- **`LegacySkin`** (`legacy_skin.dfy`) is the out-of-line loader and factory. It covers:
  - the two file fillers (`[files]` entries, or probing `<key>.svg` then `<key>.png`);
  - the all-or-nothing two-stage fill;
  - `get_skin_files`, which takes the `[files]` result when it is complete and otherwise the directory scan;
  - `init` with `loadMeta` and `loadFiles`;
  - the factory's character normalisation: whitespace, separators and letter case.
- **`InlineLegacySkin`** (`inline_legacy_skin.dfy`) is the header-only loader. It is kept separate because it behaves differently:
  - it demands `skin.ini`;
  - it checks the required keys up front;
  - it loads nothing unless they all pass;
  - its factory does no whitespace or letter-case folding; only a separator other than a space is looked up as `:`.

  Its factory constructor and `createRenderable` do the same as the out-of-line ones, so it reuses `Skins.NewFactory` and `Renderables.CreateRenderable`.
- **`Skins`** (`skins.dfy`) is what both loaders share:
  - the factory constructor and its lookup;
  - the loader state (metadata, file map, validity);
  - the character → `[files]` key table.
- **`Renderables`** (`renderables.dfy`) covers the `RenderableBase` visibility gate and the extension-based `createRenderable`.
- **`SettingsBackend`** (`settings_backend.dfy`) covers the QSettings backend:
  - tagged `setValue`/`value` through a group guard;
  - `allSettings`, which splits every stored key at its last `/`.
- **`Fs`**, **`Text`** and **`Common`** are the file-system/INI view, the string helpers (`lastIndexOf`, `suffix`, ASCII `toLower` and `isSpace`) and `Option`.

The environment is modelled as follows:

- A skin directory is its path, the set of names that exist in it, and its parsed `skin.ini`, keyed `group/key`. A missing `skin.ini` reads as an empty map.
- A null element or null pointer is `None`.
- The base class's separator test `RenderableFactory::isSeparator` is not part of this model. It is a parameter `isSep` of every lemma that needs it.

The out-of-line loader never merges the two sources. When `[files]` resolves every required key, an image only the directory scan would find is ignored (`LegacySkin.ConfigWins`).

## Model

| member | source | states |
|---|---|---|
| LegacySkin.ConfigProbe | src/skin/legacy_skin_loader.cpp:45-53 | a key is taken from `[files]` exactly when its value is non-empty and names an existing file, and then it maps to that file's path in the skin directory |
| LegacySkin.FindSkinFile | src/skin/legacy_skin_loader.cpp:62-73 | no file is found exactly when neither `<name>.svg` nor `<name>.png` exists |
| LegacySkin.ScanFormat | src/skin/legacy_skin_loader.cpp:62-73 | `.svg` wins over `.png`: a scanned key becomes a vector element when the svg exists, a raster element when only the png does, and null when neither exists |
| LegacySkin.Fill | src/skin/legacy_skin_loader.cpp:49-51 | a filler adds exactly the listed keys it finds a file for, stores the path it found, and keeps every earlier entry otherwise |
| LegacySkin.FoundCount | src/skin/legacy_skin_loader.cpp:37 | over distinct keys, the number found equals the number of keys exactly when every key is found, which is what the size comparison tests |
| LegacySkin.TwoStageFillSpec | src/skin/legacy_skin_loader.cpp:31-42 | the result is empty exactly when some required key is missing; otherwise it holds every required key plus the optional keys found, each under the path the filler gave |
| LegacySkin.GetSkinFilesImpl | src/skin/legacy_skin_loader.cpp:31-42 | all-or-nothing on the eleven required keys; optional keys appear only in a complete result |
| LegacySkin.GetSkinFiles | src/skin/legacy_skin_loader.cpp:90-96 | a file set exists exactly when one of the two strategies resolves every required key; a non-empty result holds every required key with a non-empty path |
| LegacySkin.ConfigWins | src/skin/legacy_skin_loader.cpp:55-60 | with a complete `[files]` section the result is exactly the required keys plus the configured optional ones, under their configured paths; nothing from the scan is merged in |
| LegacySkin.ScanFallback | src/skin/legacy_skin_loader.cpp:83-96 | with an incomplete `[files]` section every entry is the file the directory scan found, and a complete scan holds the required keys plus the optional ones found |
| LegacySkin.ConfigStageEmpty | src/skin/legacy_skin_loader.cpp:37-38 | an incomplete `[files]` section makes the first stage empty |
| LegacySkin.AddDigits | src/skin/legacy_skin_loader.cpp:172-175 | the digit loop maps each digit whose one-character key has a path, and nothing else |
| LegacySkin.LoadTable | src/skin/legacy_skin_loader.cpp:167-180 | each display character is mapped exactly when its key (digit, `s1`, `s2`, `am`, `pm`) has a path, and then to that path |
| LegacySkin.LoadFilesFrom | src/skin/legacy_skin_loader.cpp:161-181 | an empty file set leaves the loader untouched; otherwise only the file map changes |
| LegacySkin.LoadMeta | src/skin/legacy_skin_loader.cpp:149-159 | without `skin.ini` nothing changes; otherwise each `[info]` child key overwrites or adds the entry of that name |
| LegacySkin.LoadedCount | src/skin/legacy_skin_loader.cpp:146 | loading a file set into an empty map gives at least eleven characters exactly when the file set is non-empty |
| LegacySkin.Init | src/skin/legacy_skin_loader.cpp:134-147 | a non-directory is left unloaded; a directory always gets a name (`[info]` name, else the folder name) and is valid exactly when `[files]` or the scan resolves every required key; the loaded characters are exactly those whose key has a path, each mapped to that path; the metadata holds the name and exactly the `[info]` child keys, each with its `[info]` value |
| LegacySkin.Item | src/skin/legacy_skin_loader.cpp:107-117 | the element is the lookup of the lower-cased normalised character: whitespace becomes the space slot (or `:` without two separators), any other separator becomes `:` |
| LegacySkin.ItemWhitespace | src/skin/legacy_skin_loader.cpp:109-110 | every whitespace character draws like a space |
| LegacySkin.ItemSeparator | src/skin/legacy_skin_loader.cpp:111-112 | a separator that is not whitespace draws like `:` |
| LegacySkin.ItemSeparatorCollapse | src/skin/legacy_skin_loader.cpp:113-114 | without both separators a space draws as `:`; with both, each draws its own entry |
| LegacySkin.ItemCaseFold | src/skin/legacy_skin_loader.cpp:115 | an upper-case letter draws like its lower-case form (separators aside) |
| LegacySkin.ItemMiss | src/skin/legacy_skin_loader.cpp:115-116 | a character whose normalised form has no entry draws nothing |
| LegacySkin.FactorySeparators | src/skin/legacy_skin_loader.cpp:100-117 | a factory built from files holding `:` draws a space with the `s2` image when one was loaded and with the `s1` image otherwise |
| Skins.NewFactory | src/skin/legacy_skin_loader.cpp:100-105 | one entry per mapped character, even when its element is null; two separators exactly when both `:` and ` ` are mapped |
| Skins.Lookup | src/skin/legacy_skin_loader.cpp:115-116 | a missing character gives null, a present one its entry |
| Skins.RequiredCharsCount | src/skin/legacy_skin_loader.cpp:146 | a file map holding every digit and `:` has at least eleven entries |
| Renderables.CreateRenderable | src/skin/legacy_skin_loader.cpp:119-131 | a vector element exactly for a case-insensitive `svg` suffix, a raster element exactly for `png`, null otherwise |
| Renderables.ExtensionDispatch | src/skin/legacy_skin_loader.cpp:121-130 | appending `.ext` selects by `ext` alone, ignoring letter case, whatever the path before it holds |
| Renderables.KnownExtensions | skin/legacy_skin_loader.hpp:38-50 | a path ending in `.svg` is a vector element and one ending in `.png` a raster element |
| Renderables.NewRenderable | core/renderable.hpp:46 | a new element is visible |
| Renderables.RenderableBase.SetVisible | core/renderable.hpp:40 | afterwards the element reports the visibility just set |
| Renderables.RenderableBase.Render | core/renderable.hpp:31-37 | drawing happens exactly when the element is visible and the painter is non-null, and then on that painter |
| Renderables.RunFinalVisibility | core/renderable.hpp:31-46 | over any sequence of calls the element ends with the last visibility set, or its initial one; rendering never changes it |
| Renderables.RunRendersOnly | core/renderable.hpp:31-37 | rendering alone leaves the element as it was; an invisible element draws nothing, a visible one draws on exactly the non-null painters, in order |
| InlineLegacySkin.FileIndex | skin/legacy_skin_loader.hpp:132-145 | each digit and `:` has its `[files]` key in the required-key list at positions 1 to 11 |
| InlineLegacySkin.Resolve | skin/legacy_skin_loader.hpp:112-115 | a file is added exactly when its value is non-empty and exists, under its path in the skin directory |
| InlineLegacySkin.AddDigits | skin/legacy_skin_loader.hpp:118-121 | the digit loop maps each digit whose value names an existing file, and nothing else |
| InlineLegacySkin.LoadFiles | skin/legacy_skin_loader.hpp:110-127 | each display character is mapped exactly when its `[files]` value names an existing file, and then to that file's path |
| InlineLegacySkin.LoadMeta | skin/legacy_skin_loader.hpp:101-108 | every `[info]` child key is copied into the metadata and nothing else changes; the folder name is not used |
| InlineLegacySkin.CheckedByChar | skin/legacy_skin_loader.hpp:87-93 | the up-front checks pass exactly when `[info] name` is set and every digit and `:` names an existing file |
| InlineLegacySkin.Init | skin/legacy_skin_loader.hpp:76-99 | an invalid loader is completely unloaded; it is valid exactly when it is a directory with `skin.ini` that passes the checks, and then holds exactly the characters whose files exist, each mapped to its path, and exactly the `[info]` child keys, each with its `[info]` value |
| InlineLegacySkin.InitValid | skin/legacy_skin_loader.hpp:76-99 | validity in the skin's own terms: a directory, a `skin.ini`, a name, and an existing file for each digit and `:` |
| InlineLegacySkin.InitName | skin/legacy_skin_loader.hpp:101-108 | a valid loader carries the `[info] name` value as its name |
| InlineLegacySkin.Skin | skin/legacy_skin_loader.hpp:66-73 | null exactly when the loader is invalid; otherwise the factory has an entry per loaded character with the element its path makes |
| InlineLegacySkin.Item | skin/legacy_skin_loader.hpp:24-30 | a separator other than a space is looked up as `:`; everything else, the space included, is looked up unchanged |
| InlineLegacySkin.IsSeparator | skin/legacy_skin_loader.hpp:32-35 | with both separators nothing is a separator; otherwise exactly the base class's separators are |
| InlineLegacySkin.NoFolding | skin/legacy_skin_loader.hpp:24-30 | a character outside the key table that the base classifier does not call a separator (an upper-case letter, say) draws nothing |
| InlineLegacySkin.LoadedSpace | skin/legacy_skin_loader.hpp:21-35 | a valid skin without `s2` draws nothing for the space, which is a separator exactly when the base classifier says so; with `s2` nothing is a separator |
| SettingsBackend.SetValue | src/settings/backend_qsettings.hpp:59-63 | the value lands under `tag/k`, every other key keeps its value, and the open groups are as before |
| SettingsBackend.Value | src/settings/backend_qsettings.hpp:65-70 | none exactly when `tag/k` is missing or holds an invalid value, else that value |
| SettingsBackend.GuardRestores | src/settings/backend_qsettings.hpp:73-79 | opening and closing the guard's group restores the store |
| SettingsBackend.SetThenValue | src/settings/backend_qsettings.hpp:59-70 | a valid value set under a tag reads back; an invalid one reads as none |
| SettingsBackend.SetLeavesOthers | src/settings/backend_qsettings.hpp:59-70 | setting one tagged key leaves every other tagged key reading as before |
| SettingsBackend.TagsNest | src/settings/backend_qsettings.hpp:45-47 | a tag may hold `/`: for any `t`, `u` and `k`, a key `k` set under tag `t/u` reads back as key `u/k` of tag `t` |
| SettingsBackend.Split | src/settings/backend_qsettings.hpp:50-53 | keys without `/` are skipped; otherwise tag, `/` and key rebuild the stored key, and the key holds no `/` |
| SettingsBackend.SplitTagged | src/settings/backend_qsettings.hpp:50-53 | splitting `tag/key` with a key free of `/` gives back the tag and the key |
| SettingsBackend.AllSettings | src/settings/backend_qsettings.hpp:42-57 | every stored key with a `/` is listed under its split with its stored value; every listed entry comes from such a key; no tag is listed empty |
| SettingsBackend.SkippedKeys | src/settings/backend_qsettings.hpp:50-51 | a stored key is missing from the result exactly when it holds no `/` |
| SettingsBackend.SetValueListed | src/settings/backend_qsettings.hpp:42-63 | a value set under a tag and a key without `/` shows up in the result under that tag and key |
| SettingsBackend.DescribesUnique | src/settings/backend_qsettings.hpp:48-55 | the result does not depend on the order in which the keys are listed |

## Left out

- Reading files and parsing INI text: `QSettings`, `QDir` and `QFileInfo` are abstracted as a map of parsed `group/key` values and a set of existing names.
- Path handling: absolute-path resolution and path normalisation are not modelled. `filePath` is the directory path, `/`, and the name.
- Unicode: `QChar::isSpace` and `QChar::toLower` are modelled for ASCII only.
- `RenderableFactory::isSeparator` (the base class test) is not part of this model. It is a parameter of every lemma that needs it.
- Subclassing: `render`, `isVisible` and `setVisible` are `final`. The model has no override points, so the visibility gate cannot be bypassed by construction.
- Image decoding and drawing: `renderImpl`, the svg and raster element classes, and `rect`/`advanceX`/`advanceY` (floating-point geometry) are not modelled. An element is a token holding its format and path.
- The classic loader base class is not part of this model. Its state is reduced to the metadata map and the validity flag; `updateMeta` is a map update.
- `LegacySkinLoader::skin()` of the out-of-line loader is not part of the modelled source. `InlineLegacySkin.Skin` models the header-only one.
- QVariant values are strings or invalid. Type conversions are not modelled.
- The backend's `load`/`save` are empty in the source and are not modelled. The three constructors only choose the file QSettings opens, and are not modelled either.
- Qt's normalisation of group names and of the keys passed to `setValue`/`value` (it strips extra slashes) is not modelled. An empty tag is kept as an empty path segment. Qt ignores an empty key: its `setValue` stores nothing and its `value` reads an invalid QVariant. The model instead stores `setValue(tag, "", v)` under `tag/` and reads it back, and `SettingsBackend.SetThenValue` does not exclude the empty key.
- Element identity: the source hands out shared `RenderableBase` objects, one per file-map entry, and `item` returns the same object on every call (with collapsed separators `item(' ')` returns the `:` object). The model's elements are plain values without identity and carry no visibility flag, so which characters share one object, and therefore one visibility flag, is not modelled; the visibility gate is modelled on its own in `Renderables`.
- The settings and about dialogs hold UI wiring only and are not modelled.
