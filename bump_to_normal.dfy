/**
 A model of the self-contained routines of BumpToNormal's Main.cpp: the "bump" remover,
 the derivation of output file names, the console banner, the green/blue swap and alpha
 installation that turn a bump texture into a normal map, and the settings flag codec.
 */
module BumpToNormal {

  datatype Option<T> = None | Some(value: T)

  // ---------------------------------------------------------------------------
  // Searching for "bump" (std::string::find)
  // ---------------------------------------------------------------------------

  const Bump: string := "bump"

  /** The four characters of `s` starting at `i` spell "bump" (case-sensitive). */
  predicate BumpAt(s: string, i: int)
  {
    0 <= i && i + 4 <= |s| &&
    s[i] == 'b' && s[i + 1] == 'u' && s[i + 2] == 'm' && s[i + 3] == 'p'
  }

  /** `s.find("bump", from)`: the first occurrence at or after `from`; None stands for npos. */
  function FindFrom(s: string, from: nat): (r: Option<nat>)
    ensures r.Some? ==> from <= r.value && BumpAt(s, r.value)
    ensures r.Some? ==> forall j :: from <= j < r.value ==> !BumpAt(s, j)
    ensures r.None? <==> forall j :: from <= j ==> !BumpAt(s, j)
    decreases |s| - from
  {
    if |s| < from + 4 then None
    else if BumpAt(s, from) then Some(from)
    else FindFrom(s, from + 1)
  }

  /** Looking at a suffix of `s` is looking at `s` further along. */
  lemma BumpAtSuffix(s: string, k: nat, j: nat)
    requires k <= |s|
    ensures BumpAt(s[k..], j) <==> BumpAt(s, k + j)
  {
  }

  // ---------------------------------------------------------------------------
  // replaceBump
  // ---------------------------------------------------------------------------

  /** What replaceBump makes of `s` once its search position is `from`: the occurrence
      found at p is replaced by `w` and the search resumes at p + 1 of the new string. */
  function ReplaceFrom(s: string, w: string, from: nat): string
    requires |w| <= 4
    decreases |s| + 1 - from
  {
    match FindFrom(s, from)
    case None => s
    case Some(p) => ReplaceFrom(s[..p] + w + s[p + 4..], w, p + 1)
  }

  /** The number of replacements replaceBump performs from search position `from`. */
  function ReplaceCount(s: string, w: string, from: nat): nat
    requires |w| <= 4
    decreases |s| + 1 - from
  {
    match FindFrom(s, from)
    case None => 0
    case Some(p) => 1 + ReplaceCount(s[..p] + w + s[p + 4..], w, p + 1)
  }

  /** The result of replaceBump(s, w). */
  function ReplaceAll(s: string, w: string): string
    requires |w| <= 4
  {
    ReplaceFrom(s, w, 0)
  }

  lemma MulSucc(a: int, k: int)
    ensures a * (1 + k) == a + a * k
    ensures a * (k + 1) == a * k + a
  {
  }

  /** Each replacement removes exactly 4 - |w| characters. */
  lemma {:induction false} ReplaceFromLength(s: string, w: string, from: nat)
    requires |w| <= 4
    ensures |ReplaceFrom(s, w, from)| == |s| - (4 - |w|) * ReplaceCount(s, w, from)
    decreases |s| + 1 - from
  {
    match FindFrom(s, from)
    case None =>
    case Some(p) =>
      var s' := s[..p] + w + s[p + 4..];
      ReplaceFromLength(s', w, p + 1);
      MulSucc(4 - |w|, ReplaceCount(s', w, p + 1));
  }

  /** replaceBump as the source runs it: find, replace, and find again from pos + 1. */
  method ReplaceBump(input: string, newWord: string) returns (result: string)
    requires |newWord| <= 4
    ensures result == ReplaceAll(input, newWord)
    ensures |result| == |input| - (4 - |newWord|) * ReplaceCount(input, newWord, 0)
    ensures newWord == "" ==> result == Strip(input)
  {
    result := input;
    var pos := FindFrom(result, 0);
    ghost var from: nat := 0;
    ghost var done: nat := 0;
    while pos.Some?
      invariant pos == FindFrom(result, from)
      invariant ReplaceFrom(result, newWord, from) == ReplaceAll(input, newWord)
      invariant done + ReplaceCount(result, newWord, from) == ReplaceCount(input, newWord, 0)
      invariant |result| == |input| - (4 - |newWord|) * done
      decreases |result| + 1 - from
    {
      var p := pos.value;
      result := result[..p] + newWord + result[p + 4..];
      MulSucc(4 - |newWord|, done);
      pos := FindFrom(result, p + 1);
      from, done := p + 1, done + 1;
    }
    if newWord == "" {
      ReplaceAllEmptyIsStrip(input);
    }
  }

  // ---------------------------------------------------------------------------
  // A left-to-right reading of replaceBump(s, "")
  // ---------------------------------------------------------------------------

  /** Independent definition of replaceBump(s, ""): an occurrence at the front is dropped,
      and the character after it is kept whatever follows, because the search then
      resumes one place past the deletion point. */
  function Strip(s: string): string
  {
    if |s| < 4 then s
    else if BumpAt(s, 0) then (if |s| == 4 then [] else [s[4]] + Strip(s[5..]))
    else [s[0]] + Strip(s[1..])
  }

  lemma {:induction false} StripNoBump(s: string)
    requires forall j :: !BumpAt(s, j)
    ensures Strip(s) == s
  {
    if 4 <= |s| {
      forall j | 0 <= j ensures !BumpAt(s[1..], j) {
        BumpAtSuffix(s, 1, j);
      }
      StripNoBump(s[1..]);
      assert s == [s[0]] + s[1..];
    }
  }

  /** A stretch free of "bump" before `p` is copied unchanged. */
  lemma {:induction false} StripSkip(s: string, from: nat, p: nat)
    requires from <= p <= |s|
    requires forall j :: from <= j < p ==> !BumpAt(s, j)
    ensures Strip(s[from..]) == s[from..p] + Strip(s[p..])
    decreases p - from
  {
    if from < p {
      var t := s[from..];
      if |t| < 4 {
        assert Strip(s[p..]) == s[p..];
        assert t == s[from..p] + s[p..];
      } else {
        BumpAtSuffix(s, from, 0);
        assert s[from..][1..] == s[from + 1..];
        StripSkip(s, from + 1, p);
        assert s[from..p] == [s[from]] + s[from + 1..p];
      }
    }
  }

  lemma {:induction false} StripLength(s: string)
    ensures |Strip(s)| <= |s|
    ensures (|s| - |Strip(s)|) % 4 == 0
  {
    if 4 <= |s| {
      if BumpAt(s, 0) {
        if |s| > 4 { StripLength(s[5..]); }
      } else {
        StripLength(s[1..]);
      }
    }
  }

  /** An occurrence anywhere costs at least four characters. */
  lemma {:induction false} StripRemoves(s: string, j: int)
    requires BumpAt(s, j)
    ensures |Strip(s)| <= |s| - 4
  {
    if BumpAt(s, 0) {
      if |s| > 4 { StripLength(s[5..]); }
    } else {
      BumpAtSuffix(s, 1, j - 1);
      StripRemoves(s[1..], j - 1);
    }
  }

  /** replaceBump(s, "") returns its input unchanged exactly when it holds no "bump". */
  lemma StripFixedIff(s: string)
    ensures Strip(s) == s <==> forall j :: !BumpAt(s, j)
  {
    if forall j :: !BumpAt(s, j) {
      StripNoBump(s);
    } else {
      var j :| BumpAt(s, j);
      StripRemoves(s, j);
    }
  }

  /** Dropping an occurrence at `p` keeps the character that follows it. */
  lemma StripAtOccurrence(s: string, p: nat)
    requires BumpAt(s, p) && p + 4 < |s|
    ensures Strip(s[p..]) == [s[p + 4]] + Strip(s[p + 5..])
  {
  }

  /** One step of the loop with the empty replacement, from search position `from` to p + 1. */
  lemma ReplaceFromEmptyStep(s: string, from: nat, p: nat)
    requires from <= |s| && FindFrom(s, from) == Some(p)
    ensures ReplaceFrom(s, "", from) == ReplaceFrom(s[..p] + s[p + 4..], "", p + 1)
  {
    var w: string := "";
    assert s[..p] + w + s[p + 4..] == s[..p] + s[p + 4..];
  }

  /** No occurrence is left after `from`: the loop stops and the rest is copied. */
  lemma ReplaceFromEmptyNone(s: string, from: nat)
    requires from <= |s| && FindFrom(s, from) == None
    ensures ReplaceFrom(s, "", from) == s[..from] + Strip(s[from..])
  {
    forall j | 0 <= j ensures !BumpAt(s[from..], j) {
      BumpAtSuffix(s, from, j);
    }
    StripNoBump(s[from..]);
    assert s == s[..from] + s[from..];
  }

  /** The loop's semantics with the empty replacement agrees with the left-to-right reading. */
  lemma {:induction false} ReplaceFromEmpty(s: string, from: nat)
    requires from <= |s|
    ensures ReplaceFrom(s, "", from) == s[..from] + Strip(s[from..])
    decreases |s| - from
  {
    match FindFrom(s, from)
    case None =>
      ReplaceFromEmptyNone(s, from);
    case Some(p) =>
      var s' := s[..p] + s[p + 4..];
      ReplaceFromEmptyStep(s, from, p);
      StripSkip(s, from, p);
      if p + 4 == |s| {
        ReplaceFromEmptyLast(s, from, p);
      } else {
        ReplaceFromEmpty(s', p + 1);
        ReplaceFromEmptyInner(s, from, p);
      }
  }

  /** After deleting an occurrence inside the string, the kept character closes the gap. */
  lemma ReplaceFromEmptyInner(s: string, from: nat, p: nat)
    requires from <= p && p + 4 < |s| && BumpAt(s, p)
    requires Strip(s[from..]) == s[from..p] + Strip(s[p..])
    ensures var s' := s[..p] + s[p + 4..];
            s'[..p + 1] + Strip(s'[p + 1..]) == s[..from] + Strip(s[from..])
  {
    var s' := s[..p] + s[p + 4..];
    StripAtOccurrence(s, p);
    assert s'[..p + 1] == s[..p] + [s[p + 4]];
    assert s'[p + 1..] == s[p + 5..];
    assert s[..from] + s[from..p] == s[..p];
    var rest := Strip(s[p + 5..]);
    assert Strip(s[from..]) == s[from..p] + ([s[p + 4]] + rest);
    assert s[..from] + (s[from..p] + ([s[p + 4]] + rest)) == s[..p] + [s[p + 4]] + rest;
  }

  /** The loop ends after deleting an occurrence at the very end of the string. */
  lemma ReplaceFromEmptyLast(s: string, from: nat, p: nat)
    requires from <= p && p + 4 == |s| && BumpAt(s, p)
    requires Strip(s[from..]) == s[from..p] + Strip(s[p..])
    ensures ReplaceFrom(s[..p] + s[p + 4..], "", p + 1) == s[..from] + Strip(s[from..])
  {
  }

  lemma ReplaceAllEmptyIsStrip(s: string)
    ensures ReplaceAll(s, "") == Strip(s)
  {
    ReplaceFromEmpty(s, 0);
    assert s[0..] == s;
  }

  /** A leftover separator stays: "bumpNormal_bump" becomes "Normal_". The string comes in
      through the requires rather than as a literal in the ensures: a literal argument there
      makes Dafny unfold ReplaceFrom and FindFrom on it eagerly, which is costly. */
  lemma ReplaceBumpLeavesSeparator(s: string)
    requires s == "bumpNormal_bump"
    ensures ReplaceAll(s, "") == "Normal_"
  {
    ReplaceAllEmptyIsStrip(s);
    assert BumpAt(s, 0);
    var t := s[5..];
    assert t == "ormal_bump";
    forall j | 0 <= j < 6 ensures !BumpAt(t, j) {
      assert t[j] != 'b';
    }
    StripSkip(t, 0, 6);
    assert t[6..] == "bump";
    assert BumpAt(t[6..], 0);
    assert t[0..] == t;
  }

  /** The rescan at pos + 1 skips the occurrence that a deletion closes up:
      "bumpbump" becomes "bump", so the result need not be free of "bump". */
  lemma ReplaceBumpDoubled()
    ensures ReplaceAll("bumpbump", "") == "bump"
    ensures BumpAt(ReplaceAll("bumpbump", ""), 0)
  {
  }

  // ---------------------------------------------------------------------------
  // File-name stem
  // ---------------------------------------------------------------------------

  /** `s.find_last_of(c)`: the last index holding `c`; None stands for npos. */
  function LastIndexOf(s: string, c: char): (r: Option<nat>)
    ensures r.Some? ==> r.value < |s| && s[r.value] == c
    ensures r.Some? ==> forall j :: r.value < j < |s| ==> s[j] != c
    ensures r.None? <==> c !in s
  {
    if |s| == 0 then None
    else if s[|s| - 1] == c then Some(|s| - 1)
    else (assert s == s[..|s| - 1] + [s[|s| - 1]]; LastIndexOf(s[..|s| - 1], c))
  }

  /** The file name without its extension: everything before the last '.', or the whole
      name when it has no '.'. */
  function Stem(fileName: string): (stem: string)
    ensures stem <= fileName
    ensures |stem| == |fileName| <==> '.' !in fileName
    ensures |stem| < |fileName| ==> fileName[|stem|] == '.' && '.' !in fileName[|stem| + 1..]
  {
    match LastIndexOf(fileName, '.')
    case None => fileName
    case Some(i) => fileName[..i]
  }

  /** Stem undoes appending an extension that has no dot of its own. */
  lemma StemOfJoin(base: string, ext: string)
    requires '.' !in ext
    ensures Stem(base + "." + ext) == base
  {
    var name := base + "." + ext;
    assert name[|base|] == '.';
    var stem := Stem(name);
    assert stem == name[..|stem|];
  }

  /** The base of the output names: the stem, with "bump" removed when the setting asks. */
  function OutputBase(fileName: string, removeBump: bool): (base: string)
    ensures removeBump ==> base == Strip(Stem(fileName))
    ensures base == Stem(fileName) <==> !removeBump || forall j :: !BumpAt(Stem(fileName), j)
  {
    var stem := Stem(fileName);
    if removeBump then
      ReplaceAllEmptyIsStrip(stem);
      StripFixedIff(stem);
      ReplaceAll(stem, "")
    else
      stem
  }

  // ---------------------------------------------------------------------------
  // Output file names
  // ---------------------------------------------------------------------------

  /** The separator exactly as Main.cpp computes it. The source reads the last character
      of the base without checking that there is one; None marks that out-of-range read. */
  function SeparatorAsWritten(base: string): (sep: Option<string>)
    ensures sep.None? <==> base == []
    ensures sep.Some? ==> (sep.value == "" <==> base[|base| - 1] == '_')
  {
    if |base| == 0 then None
    else if base[|base| - 1] == '_' then Some("")
    else Some("_")
  }

  /** The separator with the empty base given one, which the rest of the model uses. */
  function Separator(base: string): (sep: string)
    ensures sep == "" || sep == "_"
    ensures base != [] ==> SeparatorAsWritten(base) == Some(sep)
    ensures base == [] ==> sep == "_"
  {
    if |base| > 0 && base[|base| - 1] == '_' then "" else "_"
  }

  /** An empty base is reachable: the default settings turn "bump.dds" into "". */
  lemma EmptyBaseReachable()
    ensures OutputBase("bump.dds", true) == ""
    ensures SeparatorAsWritten(OutputBase("bump.dds", true)) == None
  {
  }

  datatype MapKind = Specular | Normal

  function Suffix(kind: MapKind): string
  {
    match kind
    case Specular => "Spec.tga"
    case Normal => "Normal.tga"
  }

  /** `<base><sep><Spec|Normal>.tga`: the base, then one '_' unless the base already ends
      in one, then the suffix of the map. */
  function OutputFileName(base: string, kind: MapKind): (name: string)
    ensures base <= name
    ensures |name| == |base| + (if base != [] && base[|base| - 1] == '_' then 0 else 1) + |Suffix(kind)|
    ensures name[|name| - |Suffix(kind)| - 1] == '_'
    ensures name[|name| - |Suffix(kind)|..] == Suffix(kind)
  {
    base + Separator(base) + Suffix(kind)
  }

  /** A trailing '_' on the base does not change the output name. */
  lemma OutputFileNameUnderscore(base: string, kind: MapKind)
    requires base == [] || base[|base| - 1] != '_'
    ensures OutputFileName(base + "_", kind) == OutputFileName(base, kind)
  {
  }

  lemma OutputFileNameExamples()
    ensures OutputFileName("rock", Specular) == "rock_Spec.tga"
    ensures OutputFileName("rock_", Specular) == "rock_Spec.tga"
    ensures OutputFileName("Normal_", Normal) == "Normal_Normal.tga"
  {
  }

  /** The path `SaveFolderDir/<name>` the source writes to. */
  function OutputPath(folder: string, base: string, kind: MapKind): string
  {
    folder + "/" + OutputFileName(base, kind)
  }

  /** The files ProcessFile writes for one input, in order, when every step succeeds:
      the specular map only when the setting asks, the normal map always. */
  function PlannedOutputs(fileName: string, folder: string, generateSpec: bool, removeBump: bool): (paths: seq<string>)
    ensures |paths| == if generateSpec then 2 else 1
    ensures paths[|paths| - 1] == OutputPath(folder, OutputBase(fileName, removeBump), Normal)
    ensures generateSpec ==> paths[0] == OutputPath(folder, OutputBase(fileName, removeBump), Specular)
    ensures forall i, j :: 0 <= i < j < |paths| ==> paths[i] != paths[j]
  {
    var base := OutputBase(fileName, removeBump);
    var spec := OutputPath(folder, base, Specular);
    var normal := OutputPath(folder, base, Normal);
    assert |spec| + 2 == |normal|;
    (if generateSpec then [spec] else []) + [normal]
  }

  // ---------------------------------------------------------------------------
  // Console banner (PrintStyleHeader)
  // ---------------------------------------------------------------------------

  const DefaultWidth: int := 48

  function Hashes(n: nat): string
  {
    seq(n, _ => '#')
  }

  /** The banner line: (width - L) / 2 '#' on each side of " text ", with one more '#' on
      the left when the text has odd length L. */
  function BannerLayout(text: string, width: int): string
    requires |text| <= width
  {
    var padding := (width - |text|) / 2;
    Hashes(padding + |text| % 2) + " " + text + " " + Hashes(padding)
  }

  /** The length of the banner; for an even width it is always width + 2. */
  lemma BannerLength(text: string, width: int)
    requires |text| <= width
    ensures width % 2 == 0 ==> |BannerLayout(text, width)| == width + 2
    ensures width % 2 == 1 ==> |BannerLayout(text, width)| == width + 2 + (if |text| % 2 == 1 then 1 else -1)
  {
  }

  /** Where everything sits: the left run of '#', a space, the text, a space, the right run. */
  lemma BannerShape(text: string, width: int)
    requires |text| <= width
    ensures var padding := (width - |text|) / 2;
            var left := padding + |text| % 2;
            var b := BannerLayout(text, width);
            && |b| == left + |text| + padding + 2
            && (forall i :: 0 <= i < left ==> b[i] == '#')
            && b[left] == ' '
            && b[left + 1..left + 1 + |text|] == text
            && b[left + 1 + |text|] == ' '
            && (forall i :: left + 2 + |text| <= i < |b| ==> b[i] == '#')
  {
  }

  /** PrintStyleHeader, building the line instead of printing it. */
  method StyleHeader(text: string, width: int := DefaultWidth) returns (banner: string)
    requires |text| <= width
    ensures banner == BannerLayout(text, width)
    ensures width % 2 == 0 ==> |banner| == width + 2
  {
    var padding := (width - |text|) / 2;
    banner := "";
    var i := 0;
    while i < padding
      invariant 0 <= i <= padding
      invariant banner == Hashes(i)
    {
      banner := banner + "#";
      i := i + 1;
    }
    if |text| % 2 != 0 {
      banner := banner + "#";
    }
    assert banner == Hashes(padding + |text| % 2);
    banner := banner + " " + text + " ";
    ghost var left := banner;
    i := 0;
    while i < padding
      invariant 0 <= i <= padding
      invariant banner == left + Hashes(i)
    {
      banner := banner + "#";
      i := i + 1;
    }
    BannerLength(text, width);
  }

  /** The header of the settings listing. */
  lemma SettingsBanner()
    ensures BannerLayout("Program Settings", DefaultWidth) == Hashes(16) + " Program Settings " + Hashes(16)
    ensures |BannerLayout("Program Settings", DefaultWidth)| == 50
  {
    // The padding arithmetic, stated first: it keeps the proof small.
    var text := "Program Settings";
    assert |text| == 16;
    assert (DefaultWidth - |text|) / 2 == 16;
  }

  // ---------------------------------------------------------------------------
  // Normal map: green/blue swap and alpha as red
  // ---------------------------------------------------------------------------

  newtype byte = x: int | 0 <= x < 256

  datatype Rgb = Rgb(red: byte, green: byte, blue: byte)

  function SwapGreenBlue(p: Rgb): Rgb
  {
    Rgb(p.red, p.blue, p.green)
  }

  /** The pixel of the normal map made from pixel `p` and alpha `a`. */
  function NormalPixel(p: Rgb, a: byte): Rgb
  {
    SwapGreenBlue(p).(red := a)
  }

  /** Swapping twice gives back the pixel. */
  lemma SwapGreenBlueInvolution(p: Rgb)
    ensures SwapGreenBlue(SwapGreenBlue(p)) == p
  {
  }

  /** The nested loop over the 24-bit clone; `img[y, x]` is the pixel in row y, column x. */
  method SwapChannels(img: array2<Rgb>)
    modifies img
    ensures forall y, x :: 0 <= y < img.Length0 && 0 <= x < img.Length1 ==>
              img[y, x] == SwapGreenBlue(old(img[y, x]))
  {
    var y := 0;
    while y < img.Length0
      invariant 0 <= y <= img.Length0
      invariant forall j, i :: 0 <= j < y && 0 <= i < img.Length1 ==>
                  img[j, i] == SwapGreenBlue(old(img[j, i]))
      invariant forall j, i :: y <= j < img.Length0 && 0 <= i < img.Length1 ==>
                  img[j, i] == old(img[j, i])
    {
      var x := 0;
      while x < img.Length1
        invariant 0 <= x <= img.Length1
        invariant forall j, i :: 0 <= j < y && 0 <= i < img.Length1 ==>
                    img[j, i] == SwapGreenBlue(old(img[j, i]))
        invariant forall i :: 0 <= i < x ==> img[y, i] == SwapGreenBlue(old(img[y, i]))
        invariant forall j, i :: (y < j < img.Length0 || (j == y && x <= i)) && 0 <= i < img.Length1 ==>
                    img[j, i] == old(img[j, i])
      {
        var pixel := img[y, x];
        img[y, x] := Rgb(pixel.red, pixel.blue, pixel.green);
        x := x + 1;
      }
      y := y + 1;
    }
  }

  /** Running the swap loop twice restores the image. */
  method SwapChannelsTwice(img: array2<Rgb>)
    modifies img
    ensures forall y, x :: 0 <= y < img.Length0 && 0 <= x < img.Length1 ==> img[y, x] == old(img[y, x])
  {
    SwapChannels(img);
    SwapChannels(img);
  }

  /** Installing the alpha channel of the original image as the red channel. */
  method InstallAlphaAsRed(img: array2<Rgb>, alpha: array2<byte>)
    requires alpha.Length0 == img.Length0 && alpha.Length1 == img.Length1
    modifies img
    ensures forall y, x :: 0 <= y < img.Length0 && 0 <= x < img.Length1 ==>
              img[y, x] == old(img[y, x]).(red := alpha[y, x])
  {
    forall y, x | 0 <= y < img.Length0 && 0 <= x < img.Length1 {
      img[y, x] := img[y, x].(red := alpha[y, x]);
    }
  }

  /** The normal map: green and blue swapped, red replaced by the source's alpha. */
  method MakeNormalMap(img: array2<Rgb>, alpha: array2<byte>)
    requires alpha.Length0 == img.Length0 && alpha.Length1 == img.Length1
    modifies img
    ensures forall y, x :: 0 <= y < img.Length0 && 0 <= x < img.Length1 ==>
              img[y, x] == NormalPixel(old(img[y, x]), alpha[y, x])
    ensures forall y, x :: 0 <= y < img.Length0 && 0 <= x < img.Length1 ==>
              img[y, x].red == alpha[y, x] && img[y, x].green == old(img[y, x].blue) &&
              img[y, x].blue == old(img[y, x].green)
  {
    SwapChannels(img);
    InstallAlphaAsRed(img, alpha);
  }

  // ---------------------------------------------------------------------------
  // Settings
  // ---------------------------------------------------------------------------

  datatype Settings = Settings(removeBumpFromFilename: bool, generateSpecFile: bool, closeWithoutPause: bool)

  const DefaultSettings := Settings(true, true, true)

  const RemoveBumpKey: string := "RemoveBumpFromFilename"
  const GenerateSpecKey: string := "GenerateSpecFile"
  const CloseWithoutPauseKey: string := "CloseTheProgramWithoutPause"

  /** A stored flag is true when its first character is '1'. */
  function ParseFlag(value: string): bool
  {
    |value| > 0 && value[0] == '1'
  }

  /** The value written for a flag: "1" or "0", which reads back as the flag. */
  function SerialiseFlag(b: bool): (value: string)
    ensures value == "1" || value == "0"
    ensures |value| == 1 && ParseFlag(value) == b
  {
    if b then "1" else "0"
  }

  /** A flag reads true exactly when its value is "1" followed by anything; so "" reads false. */
  lemma ParseFlagIff(value: string)
    ensures ParseFlag(value) <==> exists rest :: value == "1" + rest
  {
    if ParseFlag(value) {
      assert value == "1" + value[1..];
    }
  }

  /** The value the INI reader hands back: the stored one, or the default "" when absent. */
  function StoredValue(section: map<string, string>, key: string): string
  {
    if key in section then section[key] else ""
  }

  function DecodeSettings(section: map<string, string>): Settings
  {
    Settings(ParseFlag(StoredValue(section, RemoveBumpKey)),
             ParseFlag(StoredValue(section, GenerateSpecKey)),
             ParseFlag(StoredValue(section, CloseWithoutPauseKey)))
  }

  /** The section a first run writes: the three keys, each with "1" or "0". */
  function EncodeSettings(s: Settings): (section: map<string, string>)
    ensures section.Keys == {RemoveBumpKey, GenerateSpecKey, CloseWithoutPauseKey}
    ensures forall key :: key in section ==> section[key] == "1" || section[key] == "0"
  {
    map[RemoveBumpKey := SerialiseFlag(s.removeBumpFromFilename),
        GenerateSpecKey := SerialiseFlag(s.generateSpecFile),
        CloseWithoutPauseKey := SerialiseFlag(s.closeWithoutPause)]
  }

  /** Writing the settings and reading them back reproduces them. */
  lemma SettingsRoundTrip(s: Settings)
    ensures DecodeSettings(EncodeSettings(s)) == s
  {
  }

  /** A section whose keys are all missing reads as all false. */
  lemma EmptySectionReadsFalse()
    ensures DecodeSettings(map[]) == Settings(false, false, false)
  {
  }

  /** The program's three global flags. */
  class Flags {
    var removeBumpFromFilename: bool
    var generateSpecFile: bool
    var closeWithoutPause: bool

    function Current(): Settings
      reads this
    {
      Settings(removeBumpFromFilename, generateSpecFile, closeWithoutPause)
    }

    /** The globals as they are initialised. */
    constructor ()
      ensures Current() == DefaultSettings
    {
      removeBumpFromFilename, generateSpecFile, closeWithoutPause := true, true, true;
    }

    /** Settings_Initialise. `file` is the "Settings" section of the settings file, None
        when the file does not exist; `saved` is that section afterwards. */
    method Initialise(file: Option<map<string, string>>) returns (saved: map<string, string>)
      modifies this
      ensures file.Some? ==> Current() == DecodeSettings(file.value) && saved == file.value
      ensures file.None? ==> Current() == old(Current()) && saved == EncodeSettings(Current())
    {
      if file.Some? {
        var section := file.value;
        removeBumpFromFilename := ParseFlag(StoredValue(section, RemoveBumpKey));
        generateSpecFile := ParseFlag(StoredValue(section, GenerateSpecKey));
        closeWithoutPause := ParseFlag(StoredValue(section, CloseWithoutPauseKey));
        saved := section;
      } else {
        saved := map[];
        saved := saved[RemoveBumpKey := SerialiseFlag(removeBumpFromFilename)];
        saved := saved[GenerateSpecKey := SerialiseFlag(generateSpecFile)];
        saved := saved[CloseWithoutPauseKey := SerialiseFlag(closeWithoutPause)];
      }
    }

    /** CloseWithPause: after an error the program waits for a key before it exits. */
    method CloseWithPause()
      modifies this
      ensures Current() == old(Current()).(closeWithoutPause := false)
    {
      closeWithoutPause := false;
    }
  }

  /** A first run writes the defaults; the next run reads back the same three flags. */
  method ReloadAfterFirstRun() returns (reloaded: Settings)
    ensures reloaded == DefaultSettings
  {
    var first := new Flags();
    var saved := first.Initialise(None);
    var second := new Flags();
    second.removeBumpFromFilename, second.generateSpecFile, second.closeWithoutPause := false, false, false;
    var _ := second.Initialise(Some(saved));
    SettingsRoundTrip(DefaultSettings);
    reloaded := second.Current();
  }
}
