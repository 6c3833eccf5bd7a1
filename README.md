# BumpToNormal — a Dafny model of its file-name, banner, pixel and settings routines

BumpToNormal turns DDS bump textures into a specular map and a normal map, both written as
Targa files. Most of the program is glue around the FreeImage library, the filesystem and the
Windows INI API. This project models the self-contained routines inside `Main.cpp` and proves
their properties. Everything is in one module, `BumpToNormal`, in `bump_to_normal.dfy`:

- **`replaceBump`**. `ReplaceBump` is the source's loop. It finds `"bump"`, replaces it and
  searches again from `pos + 1`. `FindFrom` models `std::string::find`, with `None` for `npos`.
  The recursive function `ReplaceFrom`/`ReplaceAll` specifies the loop. `Strip` is an
  independent left-to-right definition of the call with the empty replacement. Because of the
  `pos + 1` rescan, the character that follows a deleted occurrence is always kept. So
  `"bumpbump"` becomes `"bump"`.
- **Output names**. `Stem` strips the extension, using `LastIndexOf` for `find_last_of`.
  `OutputBase` removes `"bump"` when the setting asks for it. `Separator` and `OutputFileName`
  build `<base><sep>Spec.tga` and `<base><sep>Normal.tga`. `PlannedOutputs` lists the paths one
  input produces.
- **Banner**. `StyleHeader` is `PrintStyleHeader`, building the line instead of printing it.
  `BannerLayout` states its layout.
- **Normal map**. The 24-bit clone is an `array2<Rgb>` indexed `[y, x]`: row `y`, column `x`,
  so `Length0` is the height. `SwapChannels` is the nested swap loop. `InstallAlphaAsRed`
  writes the original image's alpha into the red channel. `MakeNormalMap` does both in order.
- **Settings**. `ParseFlag` and `SerialiseFlag` are the `'1'` test and the `"1"`/`"0"`
  encoder. The class `Flags` holds the three global flags. `Flags.Initialise` is
  `Settings_Initialise`. It takes the INI section as a map, or `None` when the file does not
  exist.

Two behaviours of the code are worth stating plainly:

- Removal does not always leave a name free of "bump". The rescan from `pos + 1` can leave
  one behind (`ReplaceBumpDoubled`).
- A failure does not stop the batch. `main`'s loop (Main.cpp:184-187) calls `ProcessFile` for
  every argument. `CloseWithPause` only clears a flag and deinitialises FreeImage.

## Model

| member | source | states |
|---|---|---|
| `BumpToNormal.FindFrom` | Main.cpp:17-20 | The result is the first index at or after `from` where "bump" starts. None (npos) means there is no occurrence at or after `from`, and the converse also holds. |
| `BumpToNormal.ReplaceBump` | Main.cpp:15-23 | The loop terminates when the replacement has at most 4 characters. Its result equals `ReplaceAll(input, newWord)`. Its length is `|input| - (4 - |newWord|) * k`, where k is the number of replacements. With `""` the result equals the left-to-right definition `Strip(input)`. |
| `BumpToNormal.ReplaceFrom` | Main.cpp:16-21 | Specification of the loop: what `replaceBump` makes of the string once its search position is reached. Each occurrence is replaced, and the search resumes one past it. Its properties are carried by `ReplaceFromLength`, `ReplaceFromEmpty` and `ReplaceBump`. |
| `BumpToNormal.ReplaceAll` | Main.cpp:15-23 | The result of `replaceBump(s, w)`: `ReplaceFrom` from position 0. `ReplaceBump` is proved equal to it, and `ReplaceAllEmptyIsStrip` ties it to `Strip`. |
| `BumpToNormal.ReplaceFromLength` | Main.cpp:18-21 | Each replacement shortens the string by exactly `4 - |w|`, so the final length is `|s| - (4 - |w|) * ReplaceCount`. |
| `BumpToNormal.ReplaceAllEmptyIsStrip` | Main.cpp:74 | `replaceBump(s, "")` equals `Strip(s)` for every s. `Strip` drops a leading "bump", keeps the character after it and continues. |
| `BumpToNormal.ReplaceFromEmpty` | Main.cpp:18-21 | From any search position, the empty-replacement loop keeps the prefix before that position and applies `Strip` to the rest. |
| `BumpToNormal.StripFixedIff` | Main.cpp:17-21 | The input comes back unchanged if and only if it contains no case-sensitive "bump". |
| `BumpToNormal.StripRemoves` | Main.cpp:17-19 | If "bump" occurs anywhere, at least four characters are removed. |
| `BumpToNormal.StripLength` | Main.cpp:19 | The result is never longer than the input, and the difference in length is a multiple of 4. |
| `BumpToNormal.StripSkip` | Main.cpp:17-20 | A stretch with no occurrence is copied unchanged into the result. |
| `BumpToNormal.ReplaceBumpLeavesSeparator` | Main.cpp:74 | `"bumpNormal_bump"` becomes `"Normal_"`. |
| `BumpToNormal.ReplaceBumpDoubled` | Main.cpp:20 | `"bumpbump"` becomes `"bump"`, which still starts with "bump". |
| `BumpToNormal.LastIndexOf` | Main.cpp:68 | `find_last_of`: the result is an index holding c with no c after it. None means c does not occur, and the converse also holds. |
| `BumpToNormal.Stem` | Main.cpp:67-71 | The stem is a prefix of the name. It is the whole name if and only if the name has no '.'. Otherwise it stops exactly at the last '.'. |
| `BumpToNormal.StemOfJoin` | Main.cpp:68-70 | Appending "." plus an extension with no dot, then taking the stem, gives back the base. |
| `BumpToNormal.OutputBase` | Main.cpp:67-75 | With removal on, the base is `Strip(stem)`. The base equals the stem if and only if removal is off or the stem holds no "bump". |
| `BumpToNormal.SeparatorAsWritten` | Main.cpp:104 | As written: an empty base makes the source index out of range (None). Otherwise the separator is "" if and only if the base ends in '_'. |
| `BumpToNormal.Separator` | Main.cpp:130 | The separator is "" or "_". For a non-empty base it agrees with the source. An empty base gets "_". |
| `BumpToNormal.EmptyBaseReachable` | Main.cpp:73-75 | With the default setting, "bump.dds" gives the empty base, where the source's index is out of range. |
| `BumpToNormal.OutputFileName` | Main.cpp:104 | The name starts with the base and ends with "_" followed by `Spec.tga` or `Normal.tga`. One '_' is added exactly when the base does not already end in '_'. |
| `BumpToNormal.OutputFileNameUnderscore` | Main.cpp:130 | For a base without a trailing '_', adding one does not change the output name. |
| `BumpToNormal.OutputFileNameExamples` | Main.cpp:104 | "rock" and "rock_" both give "rock_Spec.tga". |
| `BumpToNormal.OutputPath` | Main.cpp:104 | The `"{}/"` folder prefix of the `std::format` at lines 104 and 130, followed by `OutputFileName`. Its properties are carried by `OutputFileName` and `PlannedOutputs`. |
| `BumpToNormal.PlannedOutputs` | Main.cpp:95-137 | An input yields two paths when the specular setting is on and one otherwise. The last path is always the normal map's. The paths are pairwise distinct. |
| `BumpToNormal.BannerLayout` | Main.cpp:32-45 | Specification of the banner line that `StyleHeader` builds. `BannerShape` and `BannerLength` prove its layout. |
| `BumpToNormal.BannerLength` | Main.cpp:27-47 | For an even width the banner is exactly width + 2 long. For an odd width the length depends on the parity of the text's length. |
| `BumpToNormal.BannerShape` | Main.cpp:32-45 | The banner is `p + L mod 2` '#', a space, the text, a space, then `p` '#', where `p = (width - L) / 2`. |
| `BumpToNormal.StyleHeader` | Main.cpp:27-47 | The counted loops build exactly `BannerLayout(text, width)`. For an even width the length is width + 2. |
| `BumpToNormal.SettingsBanner` | Main.cpp:144 | "Program Settings" at the default width 48 gets 16 '#' on each side, 50 characters in all. |
| `BumpToNormal.SwapGreenBlue` | Main.cpp:120 | The `std::swap` of green and blue on one pixel. `SwapGreenBlueInvolution` and `SwapChannels` carry its properties. |
| `BumpToNormal.SwapGreenBlueInvolution` | Main.cpp:120 | Swapping green and blue twice gives back the pixel. |
| `BumpToNormal.SwapChannels` | Main.cpp:116-123 | Every pixel (r, g, b) of the W×H grid becomes (r, b, g). |
| `BumpToNormal.SwapChannelsTwice` | Main.cpp:116-123 | Running the swap loop twice restores the image. |
| `BumpToNormal.InstallAlphaAsRed` | Main.cpp:124-125 | Each pixel's red becomes the original image's alpha at that pixel. Green and blue are kept. |
| `BumpToNormal.MakeNormalMap` | Main.cpp:114-126 | Each pixel of the normal map has red equal to the source alpha, green equal to the old blue, and blue equal to the old green. |
| `BumpToNormal.ParseFlagIff` | Main.cpp:151 | A stored value reads true if and only if it is "1" followed by anything, so "" reads false. |
| `BumpToNormal.ParseFlag` | Main.cpp:151 | The `buffer[0] == '1'` test. `ParseFlagIff` states what it accepts. |
| `BumpToNormal.SerialiseFlag` | Main.cpp:159-161 | The `? "1" : "0"` encoder. The value is exactly "1" or "0", and parsing it gives back the flag. |
| `BumpToNormal.StoredValue` | Main.cpp:150 | The value the INI reader returns for a key: the stored one, or the default `""` passed at lines 150, 152 and 154. `EmptySectionReadsFalse` carries its missing-key case. |
| `BumpToNormal.DecodeSettings` | Main.cpp:150-155 | The three reads and `'1'` tests. `SettingsRoundTrip` and `EmptySectionReadsFalse` carry its properties. |
| `BumpToNormal.EncodeSettings` | Main.cpp:159-161 | The section a first run writes has exactly the three keys, each with the value "1" or "0". `SettingsRoundTrip` proves that it reads back. |
| `BumpToNormal.SettingsRoundTrip` | Main.cpp:150-161 | Reading back the three written keys reproduces all three flags. |
| `BumpToNormal.EmptySectionReadsFalse` | Main.cpp:150-155 | When the keys are missing, the reader's default "" makes every flag false. |
| `BumpToNormal.Flags.constructor` | Main.cpp:11-13 | The globals start as the defaults: all three flags true. |
| `BumpToNormal.Flags.Initialise` | Main.cpp:142-162 | If the file exists, all three flags are decoded from it and nothing is written. Otherwise the flags keep their values and are written out as "1"/"0". |
| `BumpToNormal.Flags.CloseWithPause` | Main.cpp:48-52 | The close-without-pause flag becomes false. The other two flags are unchanged. |
| `BumpToNormal.ReloadAfterFirstRun` | Main.cpp:147-161 | A first run writes the defaults, and a later run that reads that file gets the defaults back. |

## Left out

- ReplaceBump: requires a replacement of at most 4 characters. A longer one can loop forever in the source (for example `"xbump"`). The only call passes `""`.
- StyleHeader: requires the text to be no longer than the width. The `int`/`size_t` wrap-around in the padding computation for longer text (Main.cpp:28) is not modelled.
- `std::filesystem::path::filename()` (Main.cpp:67) is not modelled. The model starts from the file name itself.
- File names are modelled as sequences of characters. The source works on narrow `std::string` bytes in the ANSI code page (argv, and `filename().string()` at Main.cpp:67). So `find("bump")` (Main.cpp:17, 20), `find_last_of('.')` (Main.cpp:68) and the trailing-`'_'` test (Main.cpp:104, 130) look at bytes. The two readings agree on ASCII names and on UTF-8 names. They disagree under double-byte code pages such as CP932, where the second byte of a character can be `'_'` or one of `b u m p`. For example, `ダ.dds` (bytes 0x83 0x5F) gets no separator in the source, but `OutputFileName` adds `_`.
- The FreeImage calls are foreign code and are not modelled: load, save, `ConvertTo24Bits`, `Clone`, `GetChannel`/`SetChannel`, `Unload`, `Initialise`/`DeInitialise`. The pixel grid is taken as already converted to 24 bits. The alpha channel is taken as an array of the same shape. The case of an input with no alpha channel is not modelled.
- PlannedOutputs: lists the files written when every step succeeds. Every failure path (Main.cpp:63, 81, 106, 132) prints an error, calls `CloseWithPause` and returns. Clearing the close-without-pause flag is modelled by `Flags.CloseWithPause`. The FreeImage teardown and the early return are not. For an empty base, which `bump.dds` reaches, `PlannedOutputs` gives `folder + "/_Spec.tga"` and `folder + "/_Normal.tga"` through the corrected `Separator`. The source instead reads out of range at lines 104 and 130 (see Findings).
- Filesystem checks: `fs::exists` is a parameter of `Flags.Initialise` (an absent file is `None`). Creating the output directory (Main.cpp:99-100) is not modelled.
- The Windows INI API is not modelled beyond the `"Settings"` section as a map from key to value, with `""` for a missing key. Its file syntax, whitespace trimming and 255-character buffer are not modelled. `GetPrivateProfileString` matches section and key names case-insensitively, while `StoredValue` and `DecodeSettings` look keys up by exact match. So a hand-edited `removebumpfromfilename=1` reads true in the source and false in the model.
- Console output is not modelled: colours, `std::cout` lines, the `[i/n]` prefix built with `std::format`, and `system("pause")`. The banner is returned without its colour codes and line end.
- `main`'s loop over the arguments (Main.cpp:169-192) is not modelled, and neither is `FreeImage_DeInitialise` inside `CloseWithPause`.

## Findings

| source | as written | input that shows it | evidently intended | confidence | as-written member | corrected member |
|---|---|---|---|---|---|---|
| Main.cpp:104 and Main.cpp:130 | `onlyFileName[onlyFileName.size() - 1]` reads out of range when the base is empty (`size() - 1` wraps) | `bump.dds` with RemoveBumpFromFilename on, as it is by default: the base becomes "" | a defined separator for an empty base ("_") | high that the read is out of range; not executed | `SeparatorAsWritten`, shown by `EmptyBaseReachable` | `Separator`, used by `OutputFileName` |
