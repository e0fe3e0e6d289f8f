/** Reading a command line: `parse_input` splits the line into words at runs
    of whitespace, as `str.split()` does, and lower-cases the first word, the
    command; the other words are its arguments.  Characters are ASCII. */
module Commands {
  import Seqs

  /** `str.isspace` on an ASCII character: space, tab, line feed, vertical
      tab, form feed, carriage return and the four separators 0x1c..0x1f. */
  predicate IsSpace(c: char) {
    var n := c as int;
    n == 32 || 9 <= n <= 13 || 28 <= n <= 31
  }

  predicate IsUpper(c: char) {
    'A' <= c <= 'Z'
  }

  predicate NoSpace(s: string) {
    forall i :: 0 <= i < |s| ==> !IsSpace(s[i])
  }

  /** What `str.split()` can return as one of its parts. */
  predicate IsWord(w: string) {
    w != [] && NoSpace(w)
  }

  // ---------- splitting ----------

  /** `s` without its leading whitespace. */
  function SkipSpaces(s: string): (t: string)
    ensures |t| <= |s|
    ensures t == [] || !IsSpace(t[0])
  {
    if s != [] && IsSpace(s[0]) then SkipSpaces(s[1..]) else s
  }

  /** The longest prefix of `s` that holds no whitespace. */
  function WordAt(s: string): (w: string)
    ensures |w| <= |s|
    ensures s != [] && !IsSpace(s[0]) ==> w != []
  {
    if s == [] || IsSpace(s[0]) then [] else [s[0]] + WordAt(s[1..])
  }

  /** The word is a prefix without whitespace, followed by whitespace or by
      nothing. */
  lemma {:induction false} WordAtIsWord(s: string)
    ensures WordAt(s) == s[..|WordAt(s)|]
    ensures NoSpace(WordAt(s))
    ensures |WordAt(s)| < |s| ==> IsSpace(s[|WordAt(s)|])
    decreases |s|
  {
    if s != [] && !IsSpace(s[0]) {
      WordAtIsWord(s[1..]);
    }
  }

  /** `str.split()` with no separator: the maximal runs of non-whitespace,
      in order. */
  function Split(s: string): seq<string>
    decreases |s|
  {
    var t := SkipSpaces(s);
    if t == [] then []
    else
      var w := WordAt(t);
      [w] + Split(t[|w|..])
  }

  /** Every part `str.split()` returns is a word: not empty, no whitespace. */
  lemma {:induction false} SplitGivesWords(s: string)
    ensures forall i :: 0 <= i < |Split(s)| ==> IsWord(Split(s)[i])
    decreases |s|
  {
    var t := SkipSpaces(s);
    if t != [] {
      var w := WordAt(t);
      WordAtIsWord(t);
      SplitGivesWords(t[|w|..]);
    }
  }

  /** The words run together. */
  function Concat(ws: seq<string>): string {
    if ws == [] then [] else ws[0] + Concat(ws[1..])
  }

  /** The characters of `s` that are not whitespace, in order. */
  function NonSpace(s: string): string {
    if s == [] then [] else (if IsSpace(s[0]) then [] else [s[0]]) + NonSpace(s[1..])
  }

  /** The words separated by single spaces: a line as a user types it. */
  function JoinSpaced(ws: seq<string>): string {
    if ws == [] then [] else if |ws| == 1 then ws[0] else ws[0] + " " + JoinSpaced(ws[1..])
  }

  lemma {:induction false} NonSpaceAppend(a: string, b: string)
    ensures NonSpace(a + b) == NonSpace(a) + NonSpace(b)
    decreases |a|
  {
    if a == [] {
      assert a + b == b;
    } else {
      assert (a + b)[1..] == a[1..] + b;
      NonSpaceAppend(a[1..], b);
    }
  }

  lemma {:induction false} NonSpaceOfWord(w: string)
    requires NoSpace(w)
    ensures NonSpace(w) == w
    decreases |w|
  {
    if w != [] {
      NonSpaceOfWord(w[1..]);
    }
  }

  lemma ConcatCons(w: string, ws: seq<string>)
    ensures Concat([w] + ws) == w + Concat(ws)
  {
    assert ([w] + ws)[1..] == ws;
  }

  lemma {:induction false} NonSpaceSkipsSpaces(s: string)
    ensures NonSpace(SkipSpaces(s)) == NonSpace(s)
    decreases |s|
  {
    if s != [] && IsSpace(s[0]) {
      NonSpaceSkipsSpaces(s[1..]);
      assert NonSpace(s) == [] + NonSpace(s[1..]);
    }
  }

  lemma NonSpaceOfWordThen(t: string)
    ensures NonSpace(t) == WordAt(t) + NonSpace(t[|WordAt(t)|..])
  {
    var w := WordAt(t);
    WordAtIsWord(t);
    assert t == w + t[|w|..];
    NonSpaceAppend(w, t[|w|..]);
    NonSpaceOfWord(w);
  }

  /** Splitting loses only whitespace: the words, run together, are the
      non-whitespace characters of the line in their order. */
  lemma {:induction false} SplitKeepsText(s: string)
    ensures Concat(Split(s)) == NonSpace(s)
    decreases |s|
  {
    var t := SkipSpaces(s);
    NonSpaceSkipsSpaces(s);
    if t != [] {
      var w := WordAt(t);
      NonSpaceOfWordThen(t);
      SplitKeepsText(t[|w|..]);
      ConcatCons(w, Split(t[|w|..]));
    }
  }

  lemma {:induction false} WordAtOfWord(w: string, rest: string)
    requires NoSpace(w)
    requires rest == [] || IsSpace(rest[0])
    ensures WordAt(w + rest) == w
    decreases |w|
  {
    if w == [] {
      assert w + rest == rest;
    } else {
      assert (w + rest)[1..] == w[1..] + rest;
      WordAtOfWord(w[1..], rest);
    }
  }

  /** A word followed by whitespace (or nothing) splits off as the first
      part. */
  lemma SplitWordThen(w: string, rest: string)
    requires IsWord(w)
    requires rest == [] || IsSpace(rest[0])
    ensures Split(w + rest) == [w] + Split(rest)
  {
    var s := w + rest;
    assert s[0] == w[0];
    assert SkipSpaces(s) == s;
    WordAtOfWord(w, rest);
    assert s[|w|..] == rest;
  }

  /** Whitespace in front of a line does not change how it splits. */
  lemma SplitSkipsSpace(c: char, line: string)
    requires IsSpace(c)
    ensures Split([c] + line) == Split(line)
  {
    assert ([c] + line)[1..] == line;
    assert SkipSpaces([c] + line) == SkipSpaces(line);
  }

  /** One more word in front of a typed line splits off as one more part. */
  lemma SplitJoinSpacedStep(ws: seq<string>)
    requires |ws| > 1 && IsWord(ws[0])
    requires Split(JoinSpaced(ws[1..])) == ws[1..]
    ensures Split(JoinSpaced(ws)) == ws
  {
    var w, tail := ws[0], JoinSpaced(ws[1..]);
    assert JoinSpaced(ws) == w + ([' '] + tail);
    SplitWordThen(w, [' '] + tail);
    SplitSkipsSpace(' ', tail);
    Seqs.HeadTail(ws);
  }

  /** Words typed with single spaces between them split back into the same
      words. */
  lemma {:induction false} SplitJoinSpaced(ws: seq<string>)
    requires forall i :: 0 <= i < |ws| ==> IsWord(ws[i])
    ensures Split(JoinSpaced(ws)) == ws
    decreases |ws|
  {
    if |ws| == 1 {
      SplitWordThen(ws[0], []);
      assert ws[0] + [] == ws[0];
    } else if |ws| > 1 {
      SplitJoinSpaced(ws[1..]);
      SplitJoinSpacedStep(ws);
    }
  }

  predicate AllSpace(g: string) {
    forall i :: 0 <= i < |g| ==> IsSpace(g[i])
  }

  /** The words with the whitespace runs `gaps` around them: `gaps[0]`
      before the first word, `gaps[k]` between word k-1 and word k, and the
      last gap after the last word. */
  function Spaced(ws: seq<string>, gaps: seq<string>): string
    requires |gaps| == |ws| + 1
  {
    if ws == [] then gaps[0] else gaps[0] + (ws[0] + Spaced(ws[1..], gaps[1..]))
  }

  /** Whitespace runs that can separate words: all of them whitespace, and
      those between two words not empty. */
  predicate Separators(ws: seq<string>, gaps: seq<string>)
    requires |gaps| == |ws| + 1
  {
    (forall k :: 0 <= k < |gaps| ==> AllSpace(gaps[k]))
    && (forall k :: 0 < k < |ws| ==> gaps[k] != [])
  }

  /** Any amount of leading whitespace is skipped by the split. */
  lemma {:induction false} SplitSkipsSpaces(g: string, line: string)
    requires AllSpace(g)
    ensures Split(g + line) == Split(line)
    decreases |g|
  {
    if g == [] {
      assert g + line == line;
    } else {
      assert g + line == [g[0]] + (g[1..] + line);
      SplitSkipsSpace(g[0], g[1..] + line);
      SplitSkipsSpaces(g[1..], line);
    }
  }

  /** `str.split()` treats every non-empty run of whitespace as one
      separator and ignores whitespace at both ends: words with any such
      runs around them split back into the same words. */
  lemma {:induction false} SplitSpaced(ws: seq<string>, gaps: seq<string>)
    requires |gaps| == |ws| + 1
    requires forall i :: 0 <= i < |ws| ==> IsWord(ws[i])
    requires Separators(ws, gaps)
    ensures Split(Spaced(ws, gaps)) == ws
    decreases |ws|
  {
    SplitSkipsSpaces(gaps[0], if ws == [] then [] else ws[0] + Spaced(ws[1..], gaps[1..]));
    if ws == [] {
      assert gaps[0] + [] == gaps[0];
    } else {
      var rest := Spaced(ws[1..], gaps[1..]);
      assert Separators(ws[1..], gaps[1..]) by {
        assert forall k :: 0 < k < |ws| - 1 ==> gaps[1..][k] == gaps[k + 1];
      }
      SplitSpaced(ws[1..], gaps[1..]);
      assert rest == [] || IsSpace(rest[0]) by {
        if |ws| > 1 {
          assert rest == gaps[1] + (ws[1] + Spaced(ws[2..], gaps[2..])) by {
            assert ws[1..][1..] == ws[2..] && gaps[1..][1..] == gaps[2..];
          }
          assert gaps[1] != [] && IsSpace(gaps[1][0]);
        } else {
          assert rest == gaps[1];
        }
      }
      SplitWordThen(ws[0], rest);
      Seqs.HeadTail(ws);
    }
  }

  // ---------- the command ----------

  function LowerChar(c: char): (l: char)
    ensures !IsUpper(l)
    ensures IsSpace(l) <==> IsSpace(c)
    ensures IsUpper(c) ==> l as int == c as int + 32
    ensures !IsUpper(c) ==> l == c
  {
    if IsUpper(c) then (c as int + 32) as char else c
  }

  /** `str.lower` on ASCII: each capital letter becomes its small letter,
      every other character stays. */
  function Lower(s: string): (r: string)
    ensures |r| == |s|
    ensures forall i :: 0 <= i < |s| ==> r[i] == LowerChar(s[i])
  {
    seq(|s|, i requires 0 <= i < |s| => LowerChar(s[i]))
  }

  /** Lower-casing twice is lower-casing once. */
  lemma LowerIdempotent(s: string)
    ensures Lower(Lower(s)) == Lower(s)
  {
    assert forall i :: 0 <= i < |s| ==> LowerChar(LowerChar(s[i])) == LowerChar(s[i]);
  }

  /** A parsed command line: the command word and its arguments. */
  datatype Command = Command(cmd: string, args: seq<string>)

  /** `parse_input`: the first word, lower-cased, and the other words; the
      empty command for a blank line. */
  function ParseInput(line: string): (c: Command)
    ensures c.cmd == [] <==> Split(line) == []
    ensures c.cmd == [] ==> c.args == []
    ensures Split(line) != [] ==> |c.cmd| == |Split(line)[0]| && |c.args| == |Split(line)| - 1
    ensures forall i :: 0 <= i < |c.cmd| ==> !IsSpace(c.cmd[i]) && !IsUpper(c.cmd[i])
    ensures forall i :: 0 <= i < |c.args| ==> IsWord(c.args[i])
  {
    var parts := Split(line);
    SplitGivesWords(line);
    if parts == [] then Command("", []) else Command(Lower(parts[0]), parts[1..])
  }

  /** A line typed as words with single spaces parses into its first word
      lower-cased and the remaining words, untouched and in order. */
  lemma ParseTypedLine(ws: seq<string>)
    requires ws != []
    requires forall i :: 0 <= i < |ws| ==> IsWord(ws[i])
    ensures ParseInput(JoinSpaced(ws)) == Command(Lower(ws[0]), ws[1..])
  {
    SplitJoinSpaced(ws);
  }

  /** However much whitespace surrounds and separates the words, the line
      parses into its lower-cased first word and the remaining words. */
  lemma ParseSpacedLine(ws: seq<string>, gaps: seq<string>)
    requires ws != [] && |gaps| == |ws| + 1
    requires forall i :: 0 <= i < |ws| ==> IsWord(ws[i])
    requires Separators(ws, gaps)
    ensures ParseInput(Spaced(ws, gaps)) == Command(Lower(ws[0]), ws[1..])
  {
    SplitSpaced(ws, gaps);
  }

  /** Leading whitespace does not change the parse. */
  lemma ParseSkipsLeadingSpace(c: char, line: string)
    requires IsSpace(c)
    ensures ParseInput([c] + line) == ParseInput(line)
  {
    SplitSkipsSpace(c, line);
  }

  /** The command word is already lower case: parsing its own text gives it
      back unchanged. */
  lemma ParsedCommandIsLowerCase(line: string)
    requires Split(line) != []
    ensures Lower(ParseInput(line).cmd) == ParseInput(line).cmd
  {
    LowerIdempotent(Split(line)[0]);
  }
}
