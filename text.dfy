/**
 * The string operations of Rust's `str` that the neighbor-table parsers use:
 * `contains`, `starts_with`, `split`, `lines`, `split_whitespace`,
 * `trim_start_matches` and `trim_end_matches`, on `seq<char>`.
 */
module Text {
  import opened Wrappers

  /** `char::is_whitespace`: the characters with the Unicode White_Space
      property (tab to carriage return, space, next line, no-break space,
      ogham space mark, the spaces U+2000 to U+200A, the line and paragraph
      separators, narrow no-break space, medium mathematical space and
      ideographic space). */
  predicate IsSpace(c: char) {
    c == ' ' || ('\t' <= c <= '\r') || c == '\U{0085}' || c == '\U{00A0}' || c == '\U{1680}' ||
    ('\U{2000}' <= c <= '\U{200A}') || c == '\U{2028}' || c == '\U{2029}' || c == '\U{202F}' ||
    c == '\U{205F}' || c == '\U{3000}'
  }

  predicate NoSpace(w: string) {
    forall i :: 0 <= i < |w| ==> !IsSpace(w[i])
  }

  /** `pat` occurs in `s` starting at index `i`. */
  predicate OccursAt(s: string, pat: string, i: nat) {
    i + |pat| <= |s| && s[i..i + |pat|] == pat
  }

  /** The first index at or after `i` where `pat` occurs. */
  function FindFrom(s: string, pat: string, i: nat): (r: Option<nat>)
    requires i <= |s|
    ensures r.Some? ==> i <= r.value && r.value + |pat| <= |s|
    decreases |s| - i
  {
    if OccursAt(s, pat, i) then Some(i)
    else if i == |s| then None
    else FindFrom(s, pat, i + 1)
  }

  /** The first index where `pat` occurs in `s`. */
  function FindFirst(s: string, pat: string): (r: Option<nat>)
    ensures r.Some? ==> r.value + |pat| <= |s|
  {
    FindFrom(s, pat, 0)
  }

  lemma {:induction false} FindFromSpec(s: string, pat: string, i: nat)
    requires i <= |s|
    ensures var r := FindFrom(s, pat, i);
      (r.Some? ==> OccursAt(s, pat, r.value) && forall j :: i <= j < r.value ==> !OccursAt(s, pat, j)) &&
      (r.None? ==> forall j :: i <= j ==> !OccursAt(s, pat, j))
    decreases |s| - i
  {
    if !OccursAt(s, pat, i) && i < |s| {
      FindFromSpec(s, pat, i + 1);
    }
  }

  /** `FindFirst` finds an occurrence, and the first one. */
  lemma FindFirstSpec(s: string, pat: string)
    ensures var r := FindFirst(s, pat);
      (r.Some? ==> OccursAt(s, pat, r.value) && forall j: nat :: j < r.value ==> !OccursAt(s, pat, j)) &&
      (r.None? ==> forall j: nat :: !OccursAt(s, pat, j))
  {
    FindFromSpec(s, pat, 0);
  }

  /** `str::contains` with a string pattern. */
  predicate Contains(s: string, pat: string) {
    FindFirst(s, pat).Some?
  }

  lemma ContainsIff(s: string, pat: string)
    ensures Contains(s, pat) <==> exists j: nat :: OccursAt(s, pat, j)
  {
    FindFirstSpec(s, pat);
  }

  /** `str::starts_with`, compared character by character. */
  predicate StartsWith(s: string, prefix: string)
    decreases |prefix|
  {
    prefix == [] || (s != [] && s[0] == prefix[0] && StartsWith(s[1..], prefix[1..]))
  }

  /** `starts_with` holds exactly when the text begins with the prefix. */
  lemma {:induction false} StartsWithIff(s: string, prefix: string)
    ensures StartsWith(s, prefix) <==> |prefix| <= |s| && s[..|prefix|] == prefix
    decreases |prefix|
  {
    if prefix != [] && s != [] {
      StartsWithIff(s[1..], prefix[1..]);
      if |prefix| <= |s| {
        assert s[..|prefix|] == [s[0]] + s[1..][..|prefix| - 1];
        assert prefix == [prefix[0]] + prefix[1..];
      }
    }
  }

  /** A pattern between two texts is contained in their concatenation. */
  lemma ContainsMiddle(a: string, pat: string, b: string)
    ensures Contains(a + pat + b, pat)
  {
    var s := a + pat + b;
    assert s[|a|..|a| + |pat|] == pat;
    assert OccursAt(s, pat, |a|);
    ContainsIff(s, pat);
  }

  /** Text in front keeps an occurrence. */
  lemma ContainsAfter(a: string, b: string, pat: string)
    requires Contains(b, pat)
    ensures Contains(a + b, pat)
  {
    ContainsIff(b, pat);
    var j: nat :| OccursAt(b, pat, j);
    assert (a + b)[|a| + j..|a| + j + |pat|] == b[j..j + |pat|];
    assert OccursAt(a + b, pat, |a| + j);
    ContainsIff(a + b, pat);
  }

  /** Every word of a joined sequence is contained in the joined text. */
  lemma {:induction false} ContainsJoin(ws: seq<string>, sep: string, k: nat)
    requires k < |ws|
    ensures Contains(Join(ws, sep), ws[k])
    decreases k
  {
    if |ws| == 1 {
      ContainsMiddle([], ws[0], []);
      assert [] + ws[0] + [] == ws[0];
    } else if k == 0 {
      ContainsMiddle([], ws[0], sep + Join(ws[1..], sep));
      assert [] + ws[0] + (sep + Join(ws[1..], sep)) == Join(ws, sep);
    } else {
      ContainsJoin(ws[1..], sep, k - 1);
      assert ws[1..][k - 1] == ws[k];
      ContainsAfter(ws[0] + sep, Join(ws[1..], sep), ws[k]);
      assert ws[0] + sep + Join(ws[1..], sep) == Join(ws, sep);
    }
  }

  /** `str::split` on a non-empty separator: the pieces between the
      non-overlapping occurrences of `sep`, taken left to right. */
  function SplitOn(s: string, sep: string): (parts: seq<string>)
    requires sep != []
    ensures |parts| >= 1
    decreases |s|
  {
    match FindFirst(s, sep)
    case None => [s]
    case Some(p) => [s[..p]] + SplitOn(s[p + |sep|..], sep)
  }

  /** The pieces glued back together with `sep` between neighbours. */
  function Join(parts: seq<string>, sep: string): string
  {
    if |parts| == 0 then ""
    else if |parts| == 1 then parts[0]
    else parts[0] + sep + Join(parts[1..], sep)
  }

  lemma JoinCons(a: string, tail: seq<string>, sep: string)
    requires |tail| >= 1
    ensures Join([a] + tail, sep) == a + sep + Join(tail, sep)
  {
    assert ([a] + tail)[1..] == tail;
  }

  /** Splitting loses nothing: joining the pieces gives the text back. */
  lemma {:induction false} JoinSplitOn(s: string, sep: string)
    requires sep != []
    ensures Join(SplitOn(s, sep), sep) == s
    decreases |s|
  {
    var f := FindFirst(s, sep);
    if f.Some? {
      var p := f.value;
      var rest := s[p + |sep|..];
      assert SplitOn(s, sep) == [s[..p]] + SplitOn(rest, sep);
      JoinSplitOn(rest, sep);
      JoinCons(s[..p], SplitOn(rest, sep), sep);
      FindFirstSpec(s, sep);
      assert s[p..p+|sep|] == sep;
      assert s == s[..p] + sep + rest;
    } else {
      assert SplitOn(s, sep) == [s];
    }
  }

  lemma OccursInPrefix(s: string, pat: string, n: nat, j: nat)
    requires n <= |s|
    requires OccursAt(s[..n], pat, j)
    ensures OccursAt(s, pat, j)
  {
    assert s[..n][j..j + |pat|] == s[j..j + |pat|];
  }

  /** An occurrence inside the left part of a concatenation. */
  lemma OccursInLeft(x: string, y: string, pat: string, j: nat)
    requires OccursAt(x + y, pat, j) && j + |pat| <= |x|
    ensures OccursAt(x, pat, j)
  {
    assert (x + y)[j..j + |pat|] == x[j..j + |pat|];
  }

  /** An occurrence inside the right part of a concatenation. */
  lemma OccursInRight(x: string, y: string, pat: string, j: nat)
    requires OccursAt(x + y, pat, j) && |x| <= j
    ensures OccursAt(y, pat, j - |x|)
  {
    assert (x + y)[j..j + |pat|] == y[j - |x|..j - |x| + |pat|];
  }

  /** Every character of an occurrence is a character of the pattern. */
  lemma CharOfOccurrence(s: string, pat: string, j: nat, k: nat)
    requires OccursAt(s, pat, j) && j <= k < j + |pat|
    ensures s[k] in pat
  {
    assert pat[k - j] == s[j..j + |pat|][k - j];
  }

  /** No piece of a split contains the separator. */
  lemma {:induction false} SplitOnPiecesFree(s: string, sep: string)
    requires sep != []
    ensures forall k :: 0 <= k < |SplitOn(s, sep)| ==> !Contains(SplitOn(s, sep)[k], sep)
    decreases |s|
  {
    match FindFirst(s, sep)
    case None =>
    case Some(p) =>
      var rest := s[p + |sep|..];
      SplitOnPiecesFree(rest, sep);
      var parts := SplitOn(s, sep);
      assert parts == [s[..p]] + SplitOn(rest, sep);
      FindFirstSpec(s, sep);
      if Contains(s[..p], sep) {
        FindFirstSpec(s[..p], sep);
        var j := FindFirst(s[..p], sep).value;
        OccursInPrefix(s, sep, p, j);
        assert false;
      }
      forall k | 0 <= k < |parts|
        ensures !Contains(parts[k], sep)
      {
        if k > 0 {
          assert parts[k] == SplitOn(rest, sep)[k - 1];
        }
      }
  }

  /** `p` is where `pat` first occurs in `s`. */
  predicate FirstAt(s: string, pat: string, p: nat) {
    OccursAt(s, pat, p) && forall j: nat :: j < p ==> !OccursAt(s, pat, j)
  }

  /** `FindFirst` finds the first occurrence and nothing else. */
  lemma FindFirstAt(s: string, pat: string, p: nat)
    ensures FindFirst(s, pat) == Some(p) <==> FirstAt(s, pat, p)
  {
    FindFirstSpec(s, pat);
    var r := FindFirst(s, pat);
    if FirstAt(s, pat, p) && r != Some(p) {
      assert r.Some?;
      assert !(r.value < p) && !(p < r.value);
    }
  }

  /** When the separator occurs, the first piece is the text before its first
      occurrence and the other pieces split what follows that occurrence. */
  lemma SplitOnFirst(s: string, sep: string, p: nat)
    requires sep != [] && FirstAt(s, sep, p)
    ensures SplitOn(s, sep) == [s[..p]] + SplitOn(s[p + |sep|..], sep)
    ensures s == s[..p] + sep + s[p + |sep|..]
  {
    FindFirstAt(s, sep, p);
    assert s[p..p + |sep|] == sep;
  }

  /** The first piece of a split, and the rest of the text after it: empty
      when the separator does not occur, else starting with its first
      occurrence. */
  lemma SplitOnHead(s: string, sep: string)
    requires sep != []
    ensures var head := SplitOn(s, sep)[0];
      |head| <= |s| && s == head + s[|head|..] &&
      (s[|head|..] == [] ==> !Contains(head, sep)) &&
      (s[|head|..] != [] ==> FirstAt(s, sep, |head|))
  {
    match FindFirst(s, sep)
    case None =>
      assert SplitOn(s, sep)[0] == s;
    case Some(p) =>
      FindFirstAt(s, sep, p);
      assert SplitOn(s, sep)[0] == s[..p];
      assert s == s[..p] + s[p..];
  }

  /** There are at least two pieces exactly when the separator occurs. */
  lemma SplitOnCount(s: string, sep: string)
    requires sep != []
    ensures |SplitOn(s, sep)| >= 2 <==> Contains(s, sep)
  {
    if !Contains(s, sep) {
      assert SplitOn(s, sep) == [s];
    }
  }

  /** Length of the leading run of characters other than a line feed. */
  function LineLen(s: string): (n: nat)
    ensures n <= |s|
  {
    if s == [] || s[0] == '\n' then 0 else 1 + LineLen(s[1..])
  }

  lemma {:induction false} LineLenSpec(s: string)
    ensures forall i :: 0 <= i < LineLen(s) ==> s[i] != '\n'
    ensures LineLen(s) < |s| ==> s[LineLen(s)] == '\n'
  {
    if s != [] && s[0] != '\n' {
      LineLenSpec(s[1..]);
    }
  }

  /** `str::lines` on `\n`-separated text: an empty text has no lines and a
      final newline does not start a further, empty line. */
  function Lines(s: string): (ls: seq<string>)
    decreases |s|
  {
    if s == [] then []
    else
      var n := LineLen(s);
      [s[..n]] + (if n < |s| then Lines(s[n + 1..]) else [])
  }

  predicate EndsWithNewline(s: string) {
    s != [] && s[|s| - 1] == '\n'
  }

  /** The first line holds no line feed. */
  lemma FirstLineFree(s: string)
    ensures '\n' !in s[..LineLen(s)]
  {
    LineLenSpec(s);
    var line := s[..LineLen(s)];
    forall i | 0 <= i < |line| ensures line[i] != '\n' {
      assert line[i] == s[i];
    }
  }

  /** A line feed ends the first line unless it runs to the end of the text. */
  lemma FirstLineEnd(s: string)
    ensures LineLen(s) < |s| ==> s == s[..LineLen(s)] + "\n" + s[LineLen(s) + 1..]
    ensures LineLen(s) == |s| ==> !EndsWithNewline(s)
  {
    LineLenSpec(s);
    var n := LineLen(s);
    if n < |s| {
      assert s == s[..n] + [s[n]] + s[n + 1..];
    } else if s != [] {
      assert s[|s| - 1] != '\n';
    }
  }

  /** No line holds a line feed. */
  lemma {:induction false} LinesNoNewline(s: string)
    ensures forall k :: 0 <= k < |Lines(s)| ==> '\n' !in Lines(s)[k]
    decreases |s|
  {
    if s != [] {
      var n := LineLen(s);
      FirstLineFree(s);
      if n < |s| {
        var rest := s[n + 1..];
        LinesNoNewline(rest);
        var ls := Lines(s);
        assert ls == [s[..n]] + Lines(rest);
        forall k | 0 <= k < |ls| ensures '\n' !in ls[k] {
          if k > 0 {
            assert ls[k] == Lines(rest)[k - 1];
          }
        }
      }
    }
  }

  lemma LinesNonEmpty(s: string)
    ensures Lines(s) == [] <==> s == []
  {
  }

  function FinalNewline(s: string): string {
    if EndsWithNewline(s) then "\n" else ""
  }

  lemma JoinLineStep(line: string, rest: string, ls: seq<string>)
    requires rest != [] && ls != []
    requires Join(ls, "\n") + FinalNewline(rest) == rest
    ensures Join([line] + ls, "\n") + FinalNewline(line + "\n" + rest) == line + "\n" + rest
  {
    JoinCons(line, ls, "\n");
    var s := line + "\n" + rest;
    assert s[|s| - 1] == rest[|rest| - 1];
    assert FinalNewline(s) == FinalNewline(rest);
  }

  /** Joining the lines with line feeds gives the text back, less a final
      line feed. */
  lemma {:induction false} LinesJoin(s: string)
    ensures Join(Lines(s), "\n") + FinalNewline(s) == s
    decreases |s|
  {
    if s != [] {
      var n := LineLen(s);
      FirstLineEnd(s);
      if n == |s| {
        assert s[..n] == s;
        assert Lines(s) == [s];
      } else {
        var line := s[..n];
        var rest := s[n + 1..];
        assert Lines(s) == [line] + Lines(rest);
        if rest == [] {
          assert Lines(s) == [line];
        } else {
          LinesJoin(rest);
          LinesNonEmpty(rest);
          JoinLineStep(line, rest, Lines(rest));
        }
      }
    }
  }

  /** The end of the run of non-whitespace characters starting at `i`. */
  function TokenEnd(s: string, i: nat): (e: nat)
    requires i <= |s|
    ensures i <= e <= |s|
    decreases |s| - i
  {
    if i < |s| && !IsSpace(s[i]) then TokenEnd(s, i + 1) else i
  }

  /** The words of `s[i..]`. */
  function WordsFrom(s: string, i: nat): (ws: seq<string>)
    requires i <= |s|
    decreases |s| - i
  {
    if i == |s| then []
    else if IsSpace(s[i]) then WordsFrom(s, i + 1)
    else
      var e := TokenEnd(s, i);
      [s[i..e]] + WordsFrom(s, e)
  }

  /** `str::split_whitespace`: the maximal runs of non-whitespace characters. */
  function Words(s: string): seq<string> {
    WordsFrom(s, 0)
  }

  lemma {:induction false} TokenEndSpec(s: string, i: nat)
    requires i <= |s|
    ensures forall k :: i <= k < TokenEnd(s, i) ==> !IsSpace(s[k])
    ensures TokenEnd(s, i) < |s| ==> IsSpace(s[TokenEnd(s, i)])
    decreases |s| - i
  {
    if i < |s| && !IsSpace(s[i]) {
      TokenEndSpec(s, i + 1);
    }
  }

  /** A run of non-whitespace characters that ends at the end of the text or
      at a whitespace character is where the token ends. */
  lemma {:induction false} TokenEndAt(s: string, i: nat, e: nat)
    requires i <= e <= |s|
    requires forall k :: i <= k < e ==> !IsSpace(s[k])
    requires e == |s| || IsSpace(s[e])
    ensures TokenEnd(s, i) == e
    decreases e - i
  {
    if i < e {
      TokenEndAt(s, i + 1, e);
    }
  }

  /** Every word is non-empty and free of whitespace. */
  lemma {:induction false} WordsFromShape(s: string, i: nat)
    requires i <= |s|
    ensures forall k :: 0 <= k < |WordsFrom(s, i)| ==> WordsFrom(s, i)[k] != [] && NoSpace(WordsFrom(s, i)[k])
    decreases |s| - i
  {
    if i < |s| {
      if IsSpace(s[i]) {
        WordsFromShape(s, i + 1);
      } else {
        var e := TokenEnd(s, i);
        TokenEndSpec(s, i);
        WordsFromShape(s, e);
        var w := s[i..e];
        assert NoSpace(w) by {
          forall k | 0 <= k < |w| ensures !IsSpace(w[k]) {
            assert w[k] == s[i + k];
          }
        }
        var ws := WordsFrom(s, i);
        assert ws == [w] + WordsFrom(s, e);
        forall k | 0 <= k < |ws| ensures ws[k] != [] && NoSpace(ws[k]) {
          if k > 0 {
            assert ws[k] == WordsFrom(s, e)[k - 1];
          }
        }
      }
    }
  }

  lemma WordsShape(s: string)
    ensures AreWords(Words(s))
  {
    WordsFromShape(s, 0);
  }

  /** The first word of a space-joined sequence and what follows it. */
  lemma JoinWordsHead(s: string, i: nat, ws: seq<string>)
    requires i <= |s| && s[i..] == Join(ws, " ") && |ws| >= 1
    ensures i + |ws[0]| <= |s| && s[i..i + |ws[0]|] == ws[0]
    ensures |ws| == 1 ==> i + |ws[0]| == |s|
    ensures |ws| > 1 ==>
      i + |ws[0]| < |s| && s[i + |ws[0]|] == ' ' && s[i + |ws[0]| + 1..] == Join(ws[1..], " ")
  {
    var w := ws[0];
    var t := s[i..];
    if |ws| > 1 {
      var rest := Join(ws[1..], " ");
      assert t == w + " " + rest;
      assert t[..|w|] == w;
      assert t[|w|] == ' ';
      assert t[|w| + 1..] == rest;
    } else {
      assert t == w;
    }
  }

  /** A word standing at `i` is the next word of `s[i..]`. */
  lemma WordAt(s: string, i: nat, w: string)
    requires i + |w| <= |s| && s[i..i + |w|] == w && w != [] && NoSpace(w)
    requires i + |w| == |s| || IsSpace(s[i + |w|])
    ensures WordsFrom(s, i) == [w] + WordsFrom(s, i + |w|)
  {
    forall k | i <= k < i + |w| ensures !IsSpace(s[k]) {
      assert s[k] == w[k - i];
    }
    TokenEndAt(s, i, i + |w|);
  }

  predicate AreWords(ws: seq<string>) {
    forall k :: 0 <= k < |ws| ==> ws[k] != [] && NoSpace(ws[k])
  }

  lemma AreWordsTail(ws: seq<string>)
    requires |ws| >= 1 && AreWords(ws)
    ensures AreWords(ws[1..])
  {
    forall k | 0 <= k < |ws| - 1 ensures ws[1..][k] != [] && NoSpace(ws[1..][k]) {
      assert ws[1..][k] == ws[k + 1];
    }
  }

  /** A word followed by a space and then further words. */
  lemma WordsFromCons(s: string, i: nat, w: string, rest: seq<string>)
    requires i + |w| < |s| && s[i..i + |w|] == w && w != [] && NoSpace(w)
    requires s[i + |w|] == ' ' && WordsFrom(s, i + |w| + 1) == rest
    ensures WordsFrom(s, i) == [w] + rest
  {
    WordAt(s, i, w);
  }

  lemma {:induction false} WordsFromJoin(s: string, i: nat, ws: seq<string>)
    requires i <= |s| && s[i..] == Join(ws, " ")
    requires AreWords(ws)
    ensures WordsFrom(s, i) == ws
    decreases |ws|
  {
    if |ws| == 0 {
      assert |s[i..]| == 0;
    } else if |ws| == 1 {
      JoinWordsHead(s, i, ws);
      WordAt(s, i, ws[0]);
    } else {
      JoinWordsHead(s, i, ws);
      AreWordsTail(ws);
      WordsFromJoin(s, i + |ws[0]| + 1, ws[1..]);
      WordsFromCons(s, i, ws[0], ws[1..]);
    }
  }

  /** Splitting space-joined words on whitespace gives the words back. */
  lemma WordsOfJoin(ws: seq<string>)
    requires AreWords(ws)
    ensures Words(Join(ws, " ")) == ws
  {
    var s := Join(ws, " ");
    assert s[0..] == s;
    WordsFromJoin(s, 0, ws);
  }

  /** Every character of `g` is whitespace; the empty text is blank. */
  predicate Blank(g: string) {
    forall k :: 0 <= k < |g| ==> IsSpace(g[k])
  }

  /** The words `ws` laid out with the whitespace runs `gaps` around and
      between them: `gaps[0] + ws[0] + gaps[1] + ... + ws[n - 1] + gaps[n]`. */
  function Spaced(ws: seq<string>, gaps: seq<string>): string
    requires |gaps| == |ws| + 1
    decreases |ws|
  {
    if ws == [] then gaps[0] else gaps[0] + ws[0] + Spaced(ws[1..], gaps[1..])
  }

  /** `gaps` can separate `ws`: every gap is blank, and the gaps between two
      words are not empty; the leading and trailing ones may be. */
  predicate Gaps(ws: seq<string>, gaps: seq<string>) {
    |gaps| == |ws| + 1 &&
    (forall k :: 0 <= k < |gaps| ==> Blank(gaps[k])) &&
    (forall k :: 0 < k < |ws| ==> gaps[k] != [])
  }

  lemma GapsTail(ws: seq<string>, gaps: seq<string>)
    requires |ws| >= 1 && Gaps(ws, gaps)
    ensures Gaps(ws[1..], gaps[1..])
  {
    forall k | 0 <= k < |gaps| - 1 ensures Blank(gaps[1..][k]) {
      assert gaps[1..][k] == gaps[k + 1];
    }
    forall k | 0 < k < |ws| - 1 ensures gaps[1..][k] != [] {
      assert gaps[1..][k] == gaps[k + 1];
    }
  }

  /** Whitespace is skipped: a blank stretch adds no word. */
  lemma {:induction false} WordsFromBlank(s: string, i: nat, j: nat)
    requires i <= j <= |s| && Blank(s[i..j])
    ensures WordsFrom(s, i) == WordsFrom(s, j)
    decreases j - i
  {
    if i < j {
      assert s[i] == s[i..j][0];
      var tail := s[i + 1..j];
      assert Blank(tail) by {
        forall k | 0 <= k < |tail| ensures IsSpace(tail[k]) {
          assert tail[k] == s[i..j][k + 1];
        }
      }
      WordsFromBlank(s, i + 1, j);
    }
  }

  /** What follows the first word of a spaced layout is the end or
      whitespace. */
  lemma SpacedRestStart(ws: seq<string>, gaps: seq<string>)
    requires |ws| >= 1 && Gaps(ws, gaps)
    ensures var r := Spaced(ws[1..], gaps[1..]); r == [] || IsSpace(r[0])
  {
    var g := gaps[1];
    assert gaps[1..][0] == g;
    if g != [] {
      assert Blank(g);
      assert Spaced(ws[1..], gaps[1..])[0] == g[0];
    }
  }

  /** The pieces of a spaced layout that starts at `i`: the first gap, the
      first word, then the layout of the remaining words. */
  lemma SpacedCons(s: string, i: nat, ws: seq<string>, gaps: seq<string>)
    requires |ws| >= 1 && |gaps| == |ws| + 1
    requires i <= |s| && s[i..] == Spaced(ws, gaps)
    ensures i + |gaps[0]| + |ws[0]| <= |s|
    ensures s[i..i + |gaps[0]|] == gaps[0]
    ensures s[i + |gaps[0]|..i + |gaps[0]| + |ws[0]|] == ws[0]
    ensures s[i + |gaps[0]| + |ws[0]|..] == Spaced(ws[1..], gaps[1..])
  {
    var t := s[i..];
    var a, b := gaps[0], ws[0];
    assert t == a + b + Spaced(ws[1..], gaps[1..]);
    assert t[..|a|] == a && t[|a|..|a| + |b|] == b;
  }

  /** A blank gap, then a word that ends at the end or at whitespace, then
      the words `tail`. */
  lemma WordsAfterGap(s: string, i: nat, g: string, w: string, tail: seq<string>)
    requires i + |g| + |w| <= |s| && s[i..i + |g|] == g && Blank(g)
    requires s[i + |g|..i + |g| + |w|] == w && w != [] && NoSpace(w)
    requires i + |g| + |w| == |s| || IsSpace(s[i + |g| + |w|])
    requires WordsFrom(s, i + |g| + |w|) == tail
    ensures WordsFrom(s, i) == [w] + tail
  {
    WordsFromBlank(s, i, i + |g|);
    WordAt(s, i + |g|, w);
  }

  lemma SpaceAt(s: string, q: nat, r: string)
    requires q <= |s| && s[q..] == r && (r == [] || IsSpace(r[0]))
    ensures q == |s| || IsSpace(s[q])
  {
    if q < |s| {
      assert s[q] == r[0];
    }
  }

  lemma {:induction false} WordsFromSpaced(s: string, i: nat, ws: seq<string>, gaps: seq<string>)
    requires i <= |s| && Gaps(ws, gaps) && AreWords(ws) && s[i..] == Spaced(ws, gaps)
    ensures WordsFrom(s, i) == ws
    decreases |ws|
  {
    if ws == [] {
      assert s[i..] == gaps[0];
      assert s[i..|s|] == s[i..];
      WordsFromBlank(s, i, |s|);
    } else {
      var q := i + |gaps[0]| + |ws[0]|;
      SpacedCons(s, i, ws, gaps);
      SpacedRestStart(ws, gaps);
      SpaceAt(s, q, Spaced(ws[1..], gaps[1..]));
      GapsTail(ws, gaps);
      AreWordsTail(ws);
      WordsFromSpaced(s, q, ws[1..], gaps[1..]);
      WordsAfterGap(s, i, gaps[0], ws[0], ws[1..]);
      assert ws == [ws[0]] + ws[1..];
    }
  }

  /** `split_whitespace` gives back the words of any layout: runs of any
      whitespace between them, and any whitespace, or none, at either end. */
  lemma WordsOfSpaced(ws: seq<string>, gaps: seq<string>)
    requires Gaps(ws, gaps) && AreWords(ws)
    ensures Words(Spaced(ws, gaps)) == ws
  {
    var s := Spaced(ws, gaps);
    assert s[0..] == s;
    WordsFromSpaced(s, 0, ws, gaps);
  }

  /** The first index at or after `i` that is not `c`. */
  function SkipFrom(s: string, c: char, i: nat): (n: nat)
    requires i <= |s|
    ensures i <= n <= |s|
    decreases |s| - i
  {
    if i < |s| && s[i] == c then SkipFrom(s, c, i + 1) else i
  }

  /** The length `s[..n]` keeps once its trailing copies of `c` go. */
  function SkipBack(s: string, c: char, n: nat): (m: nat)
    requires n <= |s|
    ensures m <= n
  {
    if n > 0 && s[n - 1] == c then SkipBack(s, c, n - 1) else n
  }

  /** `str::trim_start_matches` with a single character. */
  function TrimStartMatches(s: string, c: char): string {
    s[SkipFrom(s, c, 0)..]
  }

  /** `str::trim_end_matches` with a single character. */
  function TrimEndMatches(s: string, c: char): string {
    s[..SkipBack(s, c, |s|)]
  }

  lemma {:induction false} SkipFromSpec(s: string, c: char, i: nat)
    requires i <= |s|
    ensures forall k :: i <= k < SkipFrom(s, c, i) ==> s[k] == c
    ensures SkipFrom(s, c, i) < |s| ==> s[SkipFrom(s, c, i)] != c
    decreases |s| - i
  {
    if i < |s| && s[i] == c {
      SkipFromSpec(s, c, i + 1);
    }
  }

  lemma {:induction false} SkipBackSpec(s: string, c: char, n: nat)
    requires n <= |s|
    ensures forall k :: SkipBack(s, c, n) <= k < n ==> s[k] == c
    ensures SkipBack(s, c, n) > 0 ==> s[SkipBack(s, c, n) - 1] != c
  {
    if n > 0 && s[n - 1] == c {
      SkipBackSpec(s, c, n - 1);
    }
  }

  /** Trimming removes exactly the leading copies of `c`: the text is those
      copies followed by the result, which does not start with `c`. */
  lemma TrimStartSpec(s: string, c: char)
    ensures var r := TrimStartMatches(s, c);
      |r| <= |s| && s == s[..|s| - |r|] + r &&
      (forall k :: 0 <= k < |s| - |r| ==> s[k] == c) &&
      (r != [] ==> r[0] != c)
  {
    SkipFromSpec(s, c, 0);
  }

  /** Trimming removes exactly the trailing copies of `c`: the text is the
      result followed by those copies, and the result does not end with `c`. */
  lemma TrimEndSpec(s: string, c: char)
    ensures var r := TrimEndMatches(s, c);
      |r| <= |s| && s == r + s[|r|..] &&
      (forall k :: |r| <= k < |s| ==> s[k] == c) &&
      (r != [] ==> r[|r| - 1] != c)
  {
    SkipBackSpec(s, c, |s|);
  }
}
