/**
 * The text side of importing a Godot `.tscn` scene into the tilesheet
 * editor's map: `std::string::find`, the two-flag line scanner that collects
 * tile ids from the lines of a TileMap node's `tile_data` block, the
 * `-?\d+` token extraction, `std::stoi`, and the texture path pass.
 */
module Tscn {
  import opened Wrappers
  import opened Machine

  // ----- std::string::find -----

  /** `pat` occurs in `s` at position `i`. */
  predicate MatchesAt(s: string, pat: string, i: int) {
    0 <= i && i + |pat| <= |s| && s[i..i + |pat|] == pat
  }

  /** `s.find(pat, from)`: the first position at or after `from` where `pat` occurs, None for `npos`. */
  function Find(s: string, pat: string, from: nat): (r: Option<nat>)
    ensures r.Some? ==> from <= r.value && MatchesAt(s, pat, r.value)
    ensures r.Some? ==> forall j :: from <= j < r.value ==> !MatchesAt(s, pat, j)
    ensures r.None? ==> forall j :: from <= j ==> !MatchesAt(s, pat, j)
    decreases |s| - from
  {
    if from + |pat| > |s| then None
    else if s[from..from + |pat|] == pat then Some(from)
    else Find(s, pat, from + 1)
  }

  /** `s.find(pat) != std::string::npos`. */
  predicate Contains(s: string, pat: string) {
    Find(s, pat, 0).Some?
  }

  // ----- tokens -----

  predicate IsDigit(c: char) {
    '0' <= c <= '9'
  }

  /** The end of the run of digits starting at `i`. */
  function DigitRunEnd(s: string, i: nat): (j: nat)
    requires i <= |s|
    ensures i <= j <= |s|
    ensures forall k :: i <= k < j ==> IsDigit(s[k])
    ensures j == |s| || !IsDigit(s[j])
    decreases |s| - i
  {
    if i < |s| && IsDigit(s[i]) then DigitRunEnd(s, i + 1) else i
  }

  /** A string the pattern `-?\d+` matches in full. */
  predicate IsIntToken(t: string) {
    && |t| >= 1
    && (t[0] == '-' ==> |t| >= 2)
    && (t[0] != '-' ==> IsDigit(t[0]))
    && forall k :: 0 < k < |t| ==> IsDigit(t[k])
  }

  /**
   * The matches of `-?\d+` in `s` from position `i` on, as `sregex_iterator`
   * yields them: each search starts where the last match ended, takes the
   * leftmost position where a match starts, and there the longest match
   * (a minus sign only when a digit follows it).
   */
  function MatchesFrom(s: string, i: nat): (ms: seq<string>)
    requires i <= |s|
    ensures |ms| <= |s| - i
    decreases |s| - i
  {
    if i == |s| then []
    else if IsDigit(s[i]) then
      var j := DigitRunEnd(s, i);
      [s[i..j]] + MatchesFrom(s, j)
    else if s[i] == '-' && i + 1 < |s| && IsDigit(s[i + 1]) then
      var j := DigitRunEnd(s, i + 1);
      [s[i..j]] + MatchesFrom(s, j)
    else MatchesFrom(s, i + 1)
  }

  /** Every match is an integer token. */
  lemma {:induction false} MatchesAreIntTokens(s: string, i: nat)
    requires i <= |s|
    ensures forall m :: m in MatchesFrom(s, i) ==> IsIntToken(m)
    decreases |s| - i
  {
    if i < |s| {
      if IsDigit(s[i]) {
        MatchesAreIntTokens(s, DigitRunEnd(s, i));
      } else if s[i] == '-' && i + 1 < |s| && IsDigit(s[i + 1]) {
        MatchesAreIntTokens(s, DigitRunEnd(s, i + 1));
      } else {
        MatchesAreIntTokens(s, i + 1);
      }
    }
  }

  /** How many characters of `s` are digits. */
  function DigitCount(s: string): (n: nat)
    ensures n <= |s|
  {
    if s == [] then 0 else DigitCount(s[..|s| - 1]) + (if IsDigit(s[|s| - 1]) then 1 else 0)
  }

  /** Digits of the matches, all together. */
  function MatchedDigits(ms: seq<string>): nat {
    if ms == [] then 0 else DigitCount(ms[0]) + MatchedDigits(ms[1..])
  }

  lemma {:induction false} DigitCountAppend(a: string, b: string)
    ensures DigitCount(a + b) == DigitCount(a) + DigitCount(b)
    decreases |b|
  {
    if b != [] {
      assert (a + b)[..|a + b| - 1] == a + b[..|b| - 1];
      DigitCountAppend(a, b[..|b| - 1]);
    } else {
      assert a + b == a;
    }
  }

  /** A run of `n` digits, possibly after one other character, has `n` digits. */
  lemma {:induction false} DigitCountOfRun(s: string, i: nat, j: nat)
    requires i <= j <= |s| && forall k :: i <= k < j ==> IsDigit(s[k])
    ensures DigitCount(s[i..j]) == j - i
    decreases j - i
  {
    if i < j {
      DigitCountOfRun(s, i, j - 1);
      assert s[i..j][..j - i - 1] == s[i..j - 1];
    }
  }

  /** The digits of `s` from `i` on are those before `j` and those from `j` on. */
  lemma DigitCountSplit(s: string, i: nat, j: nat)
    requires i <= j <= |s|
    ensures DigitCount(s[i..]) == DigitCount(s[i..j]) + DigitCount(s[j..])
  {
    assert s[i..] == s[i..j] + s[j..];
    DigitCountAppend(s[i..j], s[j..]);
  }

  /** A character that is not a digit adds no digit. */
  lemma DigitCountSkip(s: string, i: nat, j: nat)
    requires i < j <= |s| && !IsDigit(s[i])
    ensures DigitCount(s[i..j]) == DigitCount(s[i + 1..j])
  {
    assert s[i..j] == [s[i]] + s[i + 1..j];
    DigitCountAppend([s[i]], s[i + 1..j]);
    assert [s[i]][..0] == [];
  }

  /** The extraction skips no digit: the matches hold every digit of the line, each once. */
  lemma {:induction false} MatchesCoverDigits(s: string, i: nat)
    requires i <= |s|
    ensures MatchedDigits(MatchesFrom(s, i)) == DigitCount(s[i..])
    decreases |s| - i
  {
    if i < |s| {
      if IsDigit(s[i]) || (s[i] == '-' && i + 1 < |s| && IsDigit(s[i + 1])) {
        var start := if IsDigit(s[i]) then i else i + 1;
        var j := DigitRunEnd(s, start);
        MatchesCoverDigits(s, j);
        DigitCountSplit(s, i, j);
        DigitCountOfRun(s, start, j);
        if start == i + 1 {
          DigitCountSkip(s, i, j);
        }
        assert MatchesFrom(s, i) == [s[i..j]] + MatchesFrom(s, j);
        assert MatchesFrom(s, i)[1..] == MatchesFrom(s, j);
      } else {
        MatchesCoverDigits(s, i + 1);
        DigitCountSkip(s, i, |s|);
        assert s[i..|s|] == s[i..] && s[i + 1..|s|] == s[i + 1..];
      }
    }
  }

  /** The matches other than the exact string "0", in order. */
  function KeepIds(ms: seq<string>): (ids: seq<string>)
    ensures |ids| <= |ms|
    ensures forall t :: t in ids ==> t in ms && t != "0"
  {
    if ms == [] then []
    else if ms[0] != "0" then [ms[0]] + KeepIds(ms[1..])
    else KeepIds(ms[1..])
  }

  /** The tile ids a `tile_data` line contributes. */
  function Tokens(line: string): seq<string> {
    KeepIds(MatchesFrom(line, 0))
  }

  /** Every id taken from a line is an integer token other than "0". */
  lemma TokensAreIds(line: string)
    ensures forall t :: t in Tokens(line) ==> IsIntToken(t) && t != "0"
  {
    MatchesAreIntTokens(line, 0);
  }

  /** Keeping the ids of one more match keeps it unless it is "0". */
  lemma {:induction false} KeepIdsSnoc(ms: seq<string>, m: string)
    ensures KeepIds(ms + [m]) == KeepIds(ms) + (if m != "0" then [m] else [])
  {
    if ms == [] {
      assert [m][1..] == [];
    } else {
      assert (ms + [m])[1..] == ms[1..] + [m];
      KeepIdsSnoc(ms[1..], m);
    }
  }

  predicate AllIntTokens(ids: seq<string>) {
    forall k :: 0 <= k < |ids| ==> IsIntToken(ids[k])
  }

  // ----- std::stoi -----

  /** The value an integer token denotes. */
  function TokenValue(t: string): int
    requires IsIntToken(t)
  {
    if t[0] == '-' then -(DigitsValue(t[1..]) as int) else DigitsValue(t)
  }

  /** `std::stoi(t)` on an integer token: its value, or None where it throws `std::out_of_range`. */
  function Stoi(t: string): (r: Option<int32>)
    requires IsIntToken(t)
    ensures r.Some? <==> INT32_MIN <= TokenValue(t) <= INT32_MAX
    ensures r.Some? ==> r.value as int == TokenValue(t)
  {
    var v := TokenValue(t);
    if INT32_MIN <= v <= INT32_MAX then Some(v as int32) else None
  }

  /** `std::to_string` writes an integer token that denotes its argument. */
  lemma ToDecimalToken(n: int)
    ensures IsIntToken(ToDecimal(n))
    ensures TokenValue(ToDecimal(n)) == n
  {
    var s := ToDecimal(n);
    if n < 0 {
      var d := NatToDigits(-n);
      assert s[1..] == d;
      assert s[0] == '-' && |s| >= 2;
      DigitsValueOfNat(-n);
    } else {
      DigitsValueOfNat(n);
    }
  }

  /** `std::stoi` reads back what `std::to_string` writes. */
  lemma StoiToDecimal(n: int32)
    ensures IsIntToken(ToDecimal(n as int))
    ensures Stoi(ToDecimal(n as int)) == Some(n)
  {
    ToDecimalToken(n as int);
  }

  // ----- the tile_data scanner -----

  /** A line that opens a TileMap node, in any of the three spellings the importer looks for. */
  predicate IsTileMapHeader(line: string) {
    || Contains(line, "[node name=\"TileMap\"")
    || Contains(line, "[node name='TileMap'")
    || Contains(line, "type=\"TileMap\"")
  }

  /** The scanner's flags and the ids collected so far. */
  datatype Scanner = Scanner(inTileMap: bool, inTileData: bool, ids: seq<string>)

  const StartScanner: Scanner := Scanner(false, false, [])

  /** The second pass's handling of one line. */
  function ScanLine(sc: Scanner, line: string): (r: Scanner)
    ensures sc.ids <= r.ids
    ensures r.ids != sc.ids ==> sc.inTileMap && sc.inTileData
  {
    if IsTileMapHeader(line) then sc.(inTileMap := true)
    else if !sc.inTileMap then sc
    else if Contains(line, "tile_data") then sc.(inTileData := true)
    else if !sc.inTileData then sc
    else if Contains(line, ")") then sc.(inTileMap := false, inTileData := false)
    else sc.(ids := sc.ids + Tokens(line))
  }

  /** The scanner after the lines, starting from `sc`. */
  function ScanFrom(sc: Scanner, lines: seq<string>): (r: Scanner)
    ensures sc.ids <= r.ids
  {
    if lines == [] then sc else ScanLine(ScanFrom(sc, lines[..|lines| - 1]), lines[|lines| - 1])
  }

  /** The ids the importer collects from a file's lines. */
  function ScanLines(lines: seq<string>): Scanner {
    ScanFrom(StartScanner, lines)
  }

  /** Scanning two runs of lines is scanning the second from where the first left off. */
  lemma {:induction false} ScanFromAppend(sc: Scanner, a: seq<string>, b: seq<string>)
    ensures ScanFrom(sc, a + b) == ScanFrom(ScanFrom(sc, a), b)
    decreases |b|
  {
    if b == [] {
      assert a + b == a;
    } else {
      assert (a + b)[..|a + b| - 1] == a + b[..|b| - 1];
      ScanFromAppend(sc, a, b[..|b| - 1]);
    }
  }

  /** The scanner is only ever inside tile data when inside a TileMap node. */
  lemma {:induction false} ScanKeepsDataInMap(sc: Scanner, lines: seq<string>)
    requires sc.inTileData ==> sc.inTileMap
    ensures var r := ScanFrom(sc, lines); r.inTileData ==> r.inTileMap
  {
    if lines != [] {
      ScanKeepsDataInMap(sc, lines[..|lines| - 1]);
    }
  }

  /** Outside a TileMap node, lines up to the next node header change nothing. */
  lemma {:induction false} NothingOutsideTileMap(sc: Scanner, lines: seq<string>)
    requires !sc.inTileMap
    requires forall k :: 0 <= k < |lines| ==> !IsTileMapHeader(lines[k])
    ensures ScanFrom(sc, lines) == sc
  {
    if lines != [] {
      NothingOutsideTileMap(sc, lines[..|lines| - 1]);
    }
  }

  /** The scanner collects nothing but integer tokens. */
  lemma {:induction false} ScanFromKeepsTokens(sc: Scanner, lines: seq<string>)
    requires AllIntTokens(sc.ids)
    ensures AllIntTokens(ScanFrom(sc, lines).ids)
  {
    if lines != [] {
      var init, line := lines[..|lines| - 1], lines[|lines| - 1];
      ScanFromKeepsTokens(sc, init);
      var before := ScanFrom(sc, init).ids;
      TokensAreIds(line);
      forall k | |before| <= k < |before + Tokens(line)|
        ensures IsIntToken((before + Tokens(line))[k])
      {
        assert (before + Tokens(line))[k] in Tokens(line);
      }
    }
  }

  /** The ids of a run of lines, all together, in order. */
  function TokensOfLines(lines: seq<string>): seq<string> {
    if lines == [] then [] else TokensOfLines(lines[..|lines| - 1]) + Tokens(lines[|lines| - 1])
  }

  /** A line inside a `tile_data` block: no node header, no `tile_data`, no ')'. */
  predicate IsDataLine(line: string) {
    !IsTileMapHeader(line) && !Contains(line, "tile_data") && !Contains(line, ")")
  }

  /** Inside tile data, the data lines contribute their tokens, in order. */
  lemma {:induction false} ScanDataLines(sc: Scanner, body: seq<string>)
    requires sc.inTileMap && sc.inTileData
    requires forall k :: 0 <= k < |body| ==> IsDataLine(body[k])
    ensures ScanFrom(sc, body) == sc.(ids := sc.ids + TokensOfLines(body))
  {
    if body == [] {
      assert sc.ids + [] == sc.ids;
    } else {
      var init, last := body[..|body| - 1], body[|body| - 1];
      ScanDataLines(sc, init);
      var mid := ScanFrom(sc, init);
      assert ScanFrom(sc, body) == ScanLine(mid, last);
      assert ScanLine(mid, last) == mid.(ids := mid.ids + Tokens(last)) by {
        assert IsDataLine(last);
      }
      assert TokensOfLines(body) == TokensOfLines(init) + Tokens(last);
      AppendAssoc(sc.ids, TokensOfLines(init), Tokens(last));
    }
  }

  /**
   * A whole `tile_data` block inside a TileMap node: the `tile_data` line
   * and the closing line (the first later one containing ')') contribute
   * nothing, the lines in between contribute their tokens, and the closing
   * line leaves both the node and the data.
   */
  lemma TileDataBlock(sc: Scanner, open: string, body: seq<string>, close: string)
    requires sc.inTileMap
    requires !IsTileMapHeader(open) && Contains(open, "tile_data")
    requires forall k :: 0 <= k < |body| ==> IsDataLine(body[k])
    requires !IsTileMapHeader(close) && !Contains(close, "tile_data") && Contains(close, ")")
    ensures ScanFrom(sc, [open] + body + [close]) == Scanner(false, false, sc.ids + TokensOfLines(body))
  {
    var entered := ScanLine(sc, open);
    assert ScanFrom(sc, [open]) == entered by { assert [open][..0] == []; }
    ScanFromAppend(sc, [open], body);
    ScanDataLines(entered, body);
    ScanFromAppend(sc, [open] + body, [close]);
    assert ScanFrom(ScanFrom(sc, [open] + body), [close]) == ScanLine(ScanFrom(sc, [open] + body), close) by {
      assert [close][..0] == [];
    }
  }

  // ----- the texture path pass -----

  /** `std::string::npos`, the largest `size_t`. */
  const NPOS: int := 0xFFFF_FFFF_FFFF_FFFF

  /** `s.find(pat, from)` as a `size_t`. */
  function FindPos(s: string, pat: string, from: int): int {
    if from < 0 then NPOS else match Find(s, pat, from) case None => NPOS case Some(i) => i
  }

  /**
   * The first pass on a line containing `path=`: `start` is one past the
   * first quote (`npos + 1` wraps round to 0 when there is none), `end` the next
   * quote from `start`; the text between them when both are found.
   */
  function QuotedText(line: string): (r: Option<string>)
    ensures r.Some? ==> |r.value| + 2 <= |line|
  {
    var first := FindPos(line, "\"", 0);
    var start := if first == NPOS then 0 else first + 1;
    var end := FindPos(line, "\"", start);
    if start != NPOS && end != NPOS && start <= end <= |line| then Some(line[start..end]) else None
  }

  /** No quote lies between a position and the next quote after it. */
  lemma NoQuoteBefore(line: string, from: nat, b: nat)
    requires Find(line, "\"", from) == Some(b)
    ensures forall k :: from <= k < b ==> line[k] != '"'
  {
    forall k | from <= k < b
      ensures line[k] != '"'
    {
      assert !MatchesAt(line, "\"", k);
      assert line[k..k + 1] == [line[k]];
    }
  }

  /** The quoted text is the text between the line's first two quotes, and there is one exactly when the line has two quotes. */
  lemma QuotedTextMeans(line: string)
    requires |line| < NPOS  // no std::string reaches npos characters
    ensures match Find(line, "\"", 0)
      case None => QuotedText(line).None?
      case Some(a) =>
        match Find(line, "\"", a + 1)
        case None => QuotedText(line).None?
        case Some(b) => QuotedText(line) == Some(line[a + 1..b]) && forall k :: a < k < b ==> line[k] != '"'
  {
    match Find(line, "\"", 0)
    case None =>
      assert FindPos(line, "\"", 0) == NPOS;
    case Some(a) =>
      assert FindPos(line, "\"", 0) == a && a < |line|;
      match Find(line, "\"", a + 1)
      case None =>
        assert FindPos(line, "\"", a + 1) == NPOS;
      case Some(b) =>
        assert FindPos(line, "\"", a + 1) == b && b < |line|;
        NoQuoteBefore(line, a + 1, b);
  }

  /** A line that sets the texture path: it contains `path=` and two quotes. */
  predicate IsPathLine(line: string) {
    Contains(line, "path=") && QuotedText(line).Some?
  }

  /** `texturePath` after the first pass: the quoted text of the last path line, empty when there is none. */
  function TexturePath(lines: seq<string>): (p: string)
    ensures p == "" || exists i :: 0 <= i < |lines| && IsPathLine(lines[i]) && QuotedText(lines[i]) == Some(p)
  {
    if lines == [] then ""
    else if IsPathLine(lines[|lines| - 1]) then QuotedText(lines[|lines| - 1]).value
    else TexturePath(lines[..|lines| - 1])
  }

  /** The path comes from the last path line. */
  lemma {:induction false} TexturePathIsLast(lines: seq<string>, i: nat)
    requires i < |lines| && IsPathLine(lines[i])
    requires forall k :: i < k < |lines| ==> !IsPathLine(lines[k])
    ensures TexturePath(lines) == QuotedText(lines[i]).value
    decreases |lines|
  {
    if i < |lines| - 1 {
      var init := lines[..|lines| - 1];
      assert init[i] == lines[i];
      TexturePathIsLast(init, i);
    }
  }

  /** With no path line the path stays empty. */
  lemma {:induction false} TexturePathNone(lines: seq<string>)
    requires forall k :: 0 <= k < |lines| ==> !IsPathLine(lines[k])
    ensures TexturePath(lines) == ""
  {
    if lines != [] {
      TexturePathNone(lines[..|lines| - 1]);
    }
  }
}
