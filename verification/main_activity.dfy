/**
 The text-output helpers of the main screen. The output `TextView` is reduced
 to the string it shows; `TextView.append` is concatenation, and scrolling,
 which moves the view but not the text, leaves the string alone.
 */
module MainActivity {
  import opened KotlinText

  /** `output.append(text)`. */
  function Append(shown: string, text: string): (r: string)
    ensures |r| == |shown| + |text|
    ensures r[..|shown|] == shown && r[|shown|..] == text
  {
    shown + text
  }

  /** `writeln(content)`: nothing for empty content, otherwise a line break
      and then the content, after what is already shown. */
  function Writeln(shown: string, content: string): (r: string)
    ensures |content| == 0 ==> r == shown
    ensures |content| > 0 ==> |r| == |shown| + 1 + |content|
    ensures |content| > 0 ==> r[..|shown|] == shown && r[|shown|] == '\n' && r[|shown| + 1..] == content
  {
    if |content| == 0 then shown else Append(shown, "\n" + content)
  }

  /** What `writeln` does to the lines on screen: the old lines stay as they
      were and the lines of `content` follow them. */
  lemma WritelnAddsLines(shown: string, content: string)
    requires |content| > 0
    ensures Split(Writeln(shown, content), '\n') == Split(shown, '\n') + Split(content, '\n')
  {
    assert Writeln(shown, content) == shown + ['\n'] + content;
    SplitConcat(shown, content, '\n');
  }

  /** The `StringBuilder` of `writeln(lines)`: `appendln(line)` for each line
      in turn, each line followed by the platform line separator `sep`. */
  function Build(lines: seq<string>, sep: string): (b: string)
    ensures |lines| == 0 ==> b == ""
    ensures |lines| > 0 ==> |b| >= |sep| && b[|b| - |sep|..] == sep
    ensures |lines| > 0 ==> |b| >= |lines[0]| && b[..|lines[0]|] == lines[0]
    decreases |lines|
  {
    if |lines| == 0 then ""
    else
      var front := Build(lines[..|lines| - 1], sep);
      var b := front + lines[|lines| - 1] + sep;
      assert |lines| > 1 ==> lines[..|lines| - 1][0] == lines[0] && b[..|lines[0]|] == front[..|lines[0]|];
      b
  }

  /** Building two lists in turn builds their concatenation. */
  lemma {:induction false} BuildConcat(a: seq<string>, b: seq<string>, sep: string)
    ensures Build(a + b, sep) == Build(a, sep) + Build(b, sep)
    decreases |b|
  {
    if |b| == 0 {
      assert a + b == a;
    } else {
      var m := |b| - 1;
      assert (a + b)[..|a + b| - 1] == a + b[..m] && (a + b)[|a + b| - 1] == b[m];
      BuildLast(a + b, sep);
      BuildLast(b, sep);
      BuildConcat(a, b[..m], sep);
      Associate(Build(a, sep), Build(b[..m], sep), b[m] + sep);
    }
  }

  lemma BuildLast(lines: seq<string>, sep: string)
    requires |lines| > 0
    ensures Build(lines, sep) == Build(lines[..|lines| - 1], sep) + (lines[|lines| - 1] + sep)
  {
  }

  lemma Associate(x: string, y: string, z: string)
    ensures (x + y) + z == x + (y + z)
  {
  }

  /** One `appendln(line)`: the line, then the separator. */
  lemma BuildOne(line: string, sep: string)
    ensures Build([line], sep) == line + sep
  {
    assert [line][..0] == [];
  }

  /** With a one-character separator, the built text is the lines joined by
      that character, with one more after the last line. */
  lemma {:induction false} BuildJoin(lines: seq<string>, c: char)
    requires |lines| > 0
    ensures Build(lines, [c]) == Join(lines, c) + [c]
    decreases |lines|
  {
    BuildOne(lines[0], [c]);
    if |lines| > 1 {
      assert lines == [lines[0]] + lines[1..];
      BuildConcat([lines[0]], lines[1..], [c]);
      BuildJoin(lines[1..], c);
    }
  }

  /** The screen lines each list entry contributes, in list order: an entry
      holding line breaks shows as several lines. */
  function LinesOf(entries: seq<string>): (r: seq<string>)
    ensures |r| >= |entries|
    ensures forall i :: 0 <= i < |r| ==> '\n' !in r[i]
    decreases |entries|
  {
    if |entries| == 0 then [] else Split(entries[0], '\n') + LinesOf(entries[1..])
  }

  /** An entry without a line break is one screen line. */
  lemma {:induction false} LinesOfPlainEntries(entries: seq<string>)
    requires forall i :: 0 <= i < |entries| ==> '\n' !in entries[i]
    ensures LinesOf(entries) == entries
    decreases |entries|
  {
    if |entries| > 0 {
      SplitJoin([entries[0]], '\n');
      LinesOfPlainEntries(entries[1..]);
      assert entries == [entries[0]] + entries[1..];
    }
  }

  lemma {:induction false} SplitJoinLines(entries: seq<string>)
    requires |entries| > 0
    ensures Split(Join(entries, '\n'), '\n') == LinesOf(entries)
    decreases |entries|
  {
    if |entries| > 1 {
      SplitConcat(entries[0], Join(entries[1..], '\n'), '\n');
      SplitJoinLines(entries[1..]);
    }
  }

  /** `writeln(lines)`: the built text goes through `writeln`, so an empty
      list changes nothing. */
  function WritelnLines(shown: string, lines: seq<string>, sep: string): (r: string)
    ensures |lines| == 0 ==> r == shown
    ensures |lines| > 0 && |sep| > 0 ==>
      |r| > |shown| && r[..|shown|] == shown && r[|shown|] == '\n' && r[|shown| + 1..] == Build(lines, sep)
  {
    Writeln(shown, Build(lines, sep))
  }

  /** With the separator "\n": a line break, then every entry followed by
      a line break, after the old text. */
  lemma WritelnLinesText(shown: string, lines: seq<string>)
    requires |lines| > 0
    ensures WritelnLines(shown, lines, "\n") == shown + "\n" + Join(lines, '\n') + "\n"
  {
    var j := Join(lines, '\n');
    BuildJoin(lines, '\n');
    assert WritelnLines(shown, lines, "\n") == shown + ("\n" + (j + "\n"));
    Associate("\n", j, "\n");
    Associate(shown, "\n" + j, "\n");
    Associate(shown, "\n", j);
  }

  /** With the separator "\n": the shown lines stay, then come the lines of
      every entry in list order, then an empty line after the final separator. */
  lemma WritelnLinesAddsLines(shown: string, lines: seq<string>)
    requires |lines| > 0
    ensures Split(WritelnLines(shown, lines, "\n"), '\n') == Split(shown, '\n') + LinesOf(lines) + [""]
  {
    var j := Join(lines, '\n');
    WritelnLinesText(shown, lines);
    assert shown + "\n" + j + "\n" == shown + ['\n'] + (j + ['\n'] + "") by {
      Associate(shown + "\n", j, "\n");
    }
    SplitConcat(shown, j + ['\n'] + "", '\n');
    SplitConcat(j, "", '\n');
    SplitJoinLines(lines);
  }

  /** The entry the post observer writes for one post. */
  function PostEntry(title: string, body: string): string {
    "title = " + title + "\nbody=" + body
  }

  /** A post whose title and body hold no line break shows as two screen
      lines, the title line and then the body line. */
  lemma PostEntryLines(title: string, body: string)
    requires '\n' !in title && '\n' !in body
    ensures LinesOf([PostEntry(title, body)]) == ["title = " + title, "body=" + body]
  {
    var t := "title = " + title;
    var b := "body=" + body;
    assert '\n' !in t && '\n' !in b;
    assert PostEntry(title, body) == t + ['\n'] + b;
    SplitConcat(t, b, '\n');
    SplitJoin([t], '\n');
    SplitJoin([b], '\n');
    assert LinesOf([PostEntry(title, body)]) == Split(PostEntry(title, body), '\n') + LinesOf([]);
  }

  /** The index `content.indexOfFirst { c -> c == '\n' && lcount++ > 5 }`.
      Because `&&` short-circuits, `lcount` counts line breaks only, and the
      test sees the count before the increment: the result is the position of
      the seventh line break, or -1 when there are fewer than seven. */
  method SplitIndex(content: string) returns (index: int)
    ensures -1 <= index < |content|
    ensures index == -1 <==> Count(content, '\n') < 7
    ensures index >= 0 ==> content[index] == '\n' && Count(content[..index], '\n') == 6
  {
    var lcount := 0;
    var i := 0;
    while i < |content|
      invariant 0 <= i <= |content|
      invariant lcount == Count(content[..i], '\n')
      invariant lcount <= 6
    {
      assert content[..i + 1] == content[..i] + [content[i]];
      CountAppend(content[..i], [content[i]], '\n');
      if content[i] == '\n' {
        var before := lcount;
        lcount := lcount + 1;
        if before > 5 {
          assert content[..i] + content[i..] == content;
          CountAppend(content[..i], content[i..], '\n');
          assert content[i..] == [content[i]] + content[i + 1..];
          CountAppend([content[i]], content[i + 1..], '\n');
          return i;
        }
      }
      i := i + 1;
    }
    assert content[..i] == content;
    return -1;
  }

  /** `appendOutputAndScrollABit(content)`: the part before the seventh line
      break is appended and the view scrolled, then the rest is appended.
      `atScroll` is the text shown when `scroll()` runs, `r` the final text. */
  method AppendOutputAndScrollABit(shown: string, content: string) returns (atScroll: string, r: string)
    ensures r == shown + content
    ensures shown <= atScroll <= r
    ensures Count(content, '\n') < 7 ==> atScroll == r
    ensures Count(content, '\n') >= 7 ==>
      Count(atScroll[|shown|..], '\n') == 6 && |atScroll| < |r| && r[|atScroll|] == '\n'
  {
    var index := SplitIndex(content);
    var firstPart := if index > -1 then content[..index] else content;
    atScroll := Append(shown, firstPart);
    r := atScroll;
    if index > -1 {
      var secondPart := content[index..];
      r := Append(r, secondPart);
      assert firstPart + secondPart == content;
    }
    assert atScroll[|shown|..] == firstPart;
  }
}
