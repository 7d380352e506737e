/**
 * The three regular expressions of the catalog loader, each written out as the
 * string function its leftmost-first match computes:
 *   folder names  `^pointy\.(?<tile_type>\w+)_(?<tile_variant>[A-Za-z0-9]*)\.(?<color>\w*)$`
 *                 `^overlay_(?<name>\w+)\.standard_full$`
 *   file names    `(?<number>\d+)\.\w*$`
 * `\d` and `\w` are taken in their ASCII sense.
 */
module Patterns {
  import opened Prelude

  predicate IsDigit(c: char) { '0' <= c <= '9' }

  predicate IsAlnum(c: char) { IsDigit(c) || 'a' <= c <= 'z' || 'A' <= c <= 'Z' }

  predicate IsWord(c: char) { IsAlnum(c) || c == '_' }

  predicate AllDigits(s: string) { forall i :: 0 <= i < |s| ==> IsDigit(s[i]) }

  predicate AllAlnum(s: string) { forall i :: 0 <= i < |s| ==> IsAlnum(s[i]) }

  predicate AllWord(s: string) { forall i :: 0 <= i < |s| ==> IsWord(s[i]) }

  /** Position of the last occurrence of `c` in `s`. */
  function LastIndexOf(s: string, c: char): (r: Option<nat>)
    ensures r.Some? ==> r.value < |s| && s[r.value] == c && forall j :: r.value < j < |s| ==> s[j] != c
    ensures r.None? ==> forall j :: 0 <= j < |s| ==> s[j] != c
  {
    if s == [] then None
    else if s[|s| - 1] == c then Some(|s| - 1)
    else LastIndexOf(s[..|s| - 1], c)
  }

  /** Where the longest run of digits that ends `s` begins. */
  function DigitRunStart(s: string): (k: nat)
    ensures k <= |s| && AllDigits(s[k..])
    ensures k > 0 ==> !IsDigit(s[k - 1])
  {
    if s == [] || !IsDigit(s[|s| - 1]) then |s|
    else
      var k := DigitRunStart(s[..|s| - 1]);
      assert s[k..] == s[..|s| - 1][k..] + [s[|s| - 1]];
      k
  }

  // ---------------------------------------------------------------------
  // File names: `(?<number>\d+)\.\w*$`.

  /**
   * The `number` capture of a file name. Since `\w` excludes `.`, the dot the
   * pattern needs is the last one; the leftmost match starts where the run of
   * digits before that dot starts.
   */
  function FileNumber(file: string): (r: Option<string>)
    ensures r.Some? ==> r.value != [] && AllDigits(r.value)
    ensures r.Some? ==> exists k :: NumberAt(file, k, r.value)
  {
    match LastIndexOf(file, '.')
    case None => None
    case Some(d) =>
      var k := DigitRunStart(file[..d]);
      if k < d && AllWord(file[d + 1..]) then
        assert file[..d][k..] == file[k..d];
        assert k == 0 || file[..d][k - 1] == file[k - 1];
        assert NumberAt(file, k, file[k..d]);
        Some(file[k..d])
      else None
  }

  /**
   * The leftmost match starts at `k` with `number`: a maximal run of digits,
   * then a dot, then word characters up to the end.
   */
  ghost predicate NumberAt(file: string, k: int, number: string)
  {
    && 0 <= k && k + |number| < |file|
    && file[k..k + |number|] == number
    && (k == 0 || !IsDigit(file[k - 1]))
    && file[k + |number|] == '.'
    && AllWord(file[k + |number| + 1..])
  }

  lemma LastIndexOfIs(s: string, c: char, d: nat)
    requires d < |s| && s[d] == c
    requires forall j :: d < j < |s| ==> s[j] != c
    ensures LastIndexOf(s, c) == Some(d)
  {
  }

  /** Word characters after position `d` contain no dot, so a dot at `d` is the last one. */
  lemma DotBeforeWordsIsLast(s: string, d: nat)
    requires d < |s| && s[d] == '.' && AllWord(s[d + 1..])
    ensures LastIndexOf(s, '.') == Some(d)
  {
    forall j | d < j < |s| ensures s[j] != '.' {
      assert s[d + 1..][j - d - 1] == s[j];
    }
    LastIndexOfIs(s, '.', d);
  }

  /** Whether the pattern finds a match anywhere in the file name. */
  ghost predicate FileMatches(file: string)
  {
    exists d :: 0 < d < |file| && file[d] == '.' && IsDigit(file[d - 1]) && AllWord(file[d + 1..])
  }

  /** `captures(&file)` is `Some` exactly when the file name matches. */
  lemma FileNumberMatches(file: string)
    ensures FileNumber(file).Some? <==> FileMatches(file)
  {
    if FileNumber(file).Some? {
      var d := LastIndexOf(file, '.').value;
      assert file[..d][d - 1] == file[d - 1];
      assert 0 < d < |file| && file[d] == '.' && IsDigit(file[d - 1]) && AllWord(file[d + 1..]);
    }
    if FileMatches(file) {
      var d :| 0 < d < |file| && file[d] == '.' && IsDigit(file[d - 1]) && AllWord(file[d + 1..]);
      DotBeforeWordsIsLast(file, d);
      assert file[..d][d - 1] == file[d - 1];
    }
  }

  /** A name made of some text, a run of digits, a dot and an extension yields that run. */
  lemma FileNumberOf(stem: string, number: string, ext: string)
    requires number != [] && AllDigits(number) && AllWord(ext)
    requires stem == [] || !IsDigit(stem[|stem| - 1])
    ensures FileNumber(stem + number + "." + ext) == Some(number)
  {
    var file := stem + number + "." + ext;
    var d := |stem| + |number|;
    assert file[d] == '.' && file[d + 1..] == ext;
    assert file[..d] == stem + number;
    DotBeforeWordsIsLast(file, d);
    DigitRunOf(stem, number);
    assert file[|stem|..d] == number;
  }

  lemma {:induction false} DigitRunOf(stem: string, number: string)
    requires AllDigits(number)
    requires stem == [] || !IsDigit(stem[|stem| - 1])
    ensures DigitRunStart(stem + number) == |stem|
    decreases |number|
  {
    if number == [] {
      assert stem + number == stem;
    } else {
      var s := stem + number;
      assert s[..|s| - 1] == stem + number[..|number| - 1];
      DigitRunOf(stem, number[..|number| - 1]);
    }
  }

  // ---------------------------------------------------------------------
  // Tile folders: `^pointy\.(?<tile_type>\w+)_(?<tile_variant>[A-Za-z0-9]*)\.(?<color>\w*)$`.

  const TilePrefix: string := "pointy."

  /**
   * What comes before the dot: the greedy `\w+` backs off to the last
   * underscore, since `[A-Za-z0-9]*` cannot cross one.
   */
  function SplitTileHead(head: string): (r: Option<(string, string)>)
    ensures r.Some? ==> head == r.value.0 + "_" + r.value.1
    ensures r.Some? ==> r.value.0 != [] && AllWord(r.value.0) && AllAlnum(r.value.1)
  {
    match LastIndexOf(head, '_')
    case None => None
    case Some(u) =>
      if u >= 1 && AllWord(head) then
        var variant := head[u + 1..];
        assert forall i :: 0 <= i < |variant| ==> variant[i] == head[u + 1 + i];
        assert head == head[..u] + "_" + variant;
        Some((head[..u], variant))
      else None
  }

  /** The captures of what follows `pointy.`: it holds exactly one dot, the last one. */
  function TileRestCaptures(rest: string): (r: Option<map<string, string>>)
    ensures r.Some? ==> r.value.Keys == {"tile_type", "tile_variant", "color"}
    ensures r.Some? ==> rest == r.value["tile_type"] + "_" + r.value["tile_variant"] + "." + r.value["color"]
    ensures r.Some? ==> r.value["tile_type"] != [] && AllWord(r.value["tile_type"])
    ensures r.Some? ==> AllAlnum(r.value["tile_variant"]) && AllWord(r.value["color"])
  {
    match LastIndexOf(rest, '.')
    case None => None
    case Some(d) =>
      var color := rest[d + 1..];
      if !AllWord(color) then None
      else
        match SplitTileHead(rest[..d])
        case None => None
        case Some(parts) =>
          assert rest == rest[..d] + "." + color;
          Some(map["tile_type" := parts.0, "tile_variant" := parts.1, "color" := color])
  }

  /** The captures of a tile folder name. */
  function TileCaptures(name: string): (r: Option<map<string, string>>)
    ensures r.Some? ==> r.value.Keys == {"tile_type", "tile_variant", "color"}
    ensures r.Some? ==> name == TilePrefix + r.value["tile_type"] + "_" + r.value["tile_variant"] + "." + r.value["color"]
    ensures r.Some? ==> r.value["tile_type"] != [] && AllWord(r.value["tile_type"])
    ensures r.Some? ==> AllAlnum(r.value["tile_variant"]) && AllWord(r.value["color"])
  {
    if |name| < |TilePrefix| || name[..|TilePrefix|] != TilePrefix then None
    else
      var rest := name[|TilePrefix|..];
      match TileRestCaptures(rest)
      case None => None
      case Some(caps) =>
        var t, v, c := caps["tile_type"], caps["tile_variant"], caps["color"];
        assert name == TilePrefix + rest;
        assert TilePrefix + (t + "_" + v + "." + c) == TilePrefix + t + "_" + v + "." + c;
        Some(caps)
  }

  /** A head made of a type, an underscore and an alphanumeric variant splits back into them. */
  lemma SplitTileHeadOf(tileType: string, variant: string)
    requires tileType != [] && AllWord(tileType) && AllAlnum(variant)
    ensures SplitTileHead(tileType + "_" + variant) == Some((tileType, variant))
  {
    var head := tileType + "_" + variant;
    var u := |tileType|;
    assert head[u] == '_';
    forall j | u < j < |head| ensures head[j] != '_' {
      assert head[j] == variant[j - u - 1];
    }
    LastIndexOfIs(head, '_', u);
    assert head[..u] == tileType && head[u + 1..] == variant;
    forall i | 0 <= i < |head| ensures IsWord(head[i]) {
      if i < u { assert head[i] == tileType[i]; }
      else if i > u { assert head[i] == variant[i - u - 1]; }
    }
  }

  /** Every name built the way the pattern reads it is matched, with exactly those captures. */
  lemma TileCapturesOf(tileType: string, variant: string, color: string)
    requires tileType != [] && AllWord(tileType) && AllAlnum(variant) && AllWord(color)
    ensures TileCaptures(TilePrefix + tileType + "_" + variant + "." + color)
      == Some(map["tile_type" := tileType, "tile_variant" := variant, "color" := color])
  {
    var name := TilePrefix + tileType + "_" + variant + "." + color;
    var head := tileType + "_" + variant;
    var rest := head + "." + color;
    assert name[..|TilePrefix|] == TilePrefix && name[|TilePrefix|..] == rest;
    var d := |head|;
    assert rest[d] == '.' && rest[d + 1..] == color && rest[..d] == head;
    DotBeforeWordsIsLast(rest, d);
    SplitTileHeadOf(tileType, variant);
  }

  // ---------------------------------------------------------------------
  // Overlay folders: `^overlay_(?<name>\w+)\.standard_full$`.

  const OverlayPrefix: string := "overlay_"
  const OverlaySuffix: string := ".standard_full"

  function OverlayCaptures(name: string): (r: Option<map<string, string>>)
    ensures r.Some? ==> r.value.Keys == {"name"}
    ensures r.Some? ==> name == OverlayPrefix + r.value["name"] + OverlaySuffix
    ensures r.Some? ==> r.value["name"] != [] && AllWord(r.value["name"])
  {
    if |name| > |OverlayPrefix| + |OverlaySuffix|
      && name[..|OverlayPrefix|] == OverlayPrefix
      && name[|name| - |OverlaySuffix|..] == OverlaySuffix
      && AllWord(name[|OverlayPrefix|..|name| - |OverlaySuffix|])
    then
      var middle := name[|OverlayPrefix|..|name| - |OverlaySuffix|];
      assert name == OverlayPrefix + middle + OverlaySuffix;
      Some(map["name" := middle])
    else None
  }

  lemma OverlayCapturesOf(overlay: string)
    requires overlay != [] && AllWord(overlay)
    ensures OverlayCaptures(OverlayPrefix + overlay + OverlaySuffix) == Some(map["name" := overlay])
  {
    var name := OverlayPrefix + overlay + OverlaySuffix;
    assert name[..|OverlayPrefix|] == OverlayPrefix;
    assert name[|name| - |OverlaySuffix|..] == OverlaySuffix;
    assert name[|OverlayPrefix|..|name| - |OverlaySuffix|] == overlay;
  }

  /** No folder name matches both folder patterns. */
  lemma FolderPatternsDisjoint(name: string)
    ensures !(TileCaptures(name).Some? && OverlayCaptures(name).Some?)
  {
    if TileCaptures(name).Some? {
      assert name[..|TilePrefix|] == TilePrefix;
      assert name[0] == 'p';
      assert name[..|OverlayPrefix|] != OverlayPrefix;
    }
  }
}
