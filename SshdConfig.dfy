/** The line rewrite of patch_sshd_config: drop every line that sets one of the three
    authentication options, then append the required settings. Reading and writing
    /etc/ssh/sshd_config is outside the model; the lines are those readlines() returns. */
module SshdConfig {
  import opened Text

  /** The keys of the `required` dict, in its insertion order, and their values. */
  const REQUIRED_KEYS: seq<string> := ["PubkeyAuthentication", "PasswordAuthentication", "AuthorizedKeysFile"]
  const REQUIRED_VALUES: seq<string> := ["yes", "no", ".ssh/authorized_keys"]

  /** `f"{k} {v}\n"` for the k-th required option. */
  function RequiredLine(k: nat): string
    requires k < |REQUIRED_KEYS|
  {
    REQUIRED_KEYS[k] + " " + REQUIRED_VALUES[k] + "\n"
  }

  const REQUIRED_LINES: seq<string> := [RequiredLine(0), RequiredLine(1), RequiredLine(2)]

  /** The test `any(line.strip().startswith(k) for k in required)`. */
  predicate SetsRequiredKey(line: string) {
    var stripped := Strip(line);
    StartsWith(stripped, REQUIRED_KEYS[0]) || StartsWith(stripped, REQUIRED_KEYS[1]) || StartsWith(stripped, REQUIRED_KEYS[2])
  }

  /** The lines of `lines` that `drop` does not select, in their original order. */
  function Without(lines: seq<string>, drop: string -> bool): seq<string> {
    if lines == [] then []
    else Without(lines[..|lines| - 1], drop) + (if drop(lines[|lines| - 1]) then [] else [lines[|lines| - 1]])
  }

  /** Filtering keeps exactly the lines `drop` does not select, and nothing else; a list
      with no such line comes back whole. */
  lemma {:induction false} WithoutMembers(lines: seq<string>, drop: string -> bool)
    ensures forall l :: l in Without(lines, drop) <==> l in lines && !drop(l)
    ensures (forall l :: l in lines ==> !drop(l)) ==> Without(lines, drop) == lines
    decreases |lines|
  {
    if lines != [] {
      var init, last := lines[..|lines| - 1], lines[|lines| - 1];
      WithoutMembers(init, drop);
      assert lines == init + [last];
      assert Without(lines, drop) == Without(init, drop) + (if drop(last) then [] else [last]);
      forall l
        ensures l in Without(lines, drop) <==> l in lines && !drop(l)
      {
        assert l in lines <==> l in init || l == last;
      }
      if forall l :: l in lines ==> !drop(l) {
        assert forall l :: l in init ==> l in lines;
        assert last in lines;
      }
    }
  }

  /** Filtering works line by line across a split, so it keeps the original order. */
  lemma {:induction false} WithoutAppend(a: seq<string>, b: seq<string>, drop: string -> bool)
    ensures Without(a + b, drop) == Without(a, drop) + Without(b, drop)
    decreases |b|
  {
    if b == [] {
      assert a + b == a;
    } else {
      var init := b[..|b| - 1];
      WithoutAppend(a, init, drop);
      assert (a + b)[..|a + b| - 1] == a + init;
      assert (a + b)[|a + b| - 1] == b[|b| - 1];
    }
  }

  /** The whole new file: the lines that set none of the required keys, then the three
      required lines. */
  function Patched(lines: seq<string>): seq<string> {
    Without(lines, SetsRequiredKey) + REQUIRED_LINES
  }

  /** A line `key value`, for a required key, is one the rewrite removes. */
  lemma KeyLineSetsKey(k: nat, value: string)
    requires k < |REQUIRED_KEYS|
    ensures SetsRequiredKey(REQUIRED_KEYS[k] + " " + value + "\n")
  {
    var key := REQUIRED_KEYS[k];
    var line := key + " " + value + "\n";
    assert line == key + (" " + value + "\n");
    assert !IsSpace(key[0]) && !IsSpace(key[|key| - 1]);
    StripKeepsLeadingWord(key, " " + value + "\n");
  }

  /** Every required line is itself a line the rewrite removes. */
  lemma RequiredLinesSetRequiredKeys()
    ensures forall l :: l in REQUIRED_LINES ==> SetsRequiredKey(l)
  {
    KeyLineSetsKey(0, REQUIRED_VALUES[0]);
    KeyLineSetsKey(1, REQUIRED_VALUES[1]);
    KeyLineSetsKey(2, REQUIRED_VALUES[2]);
  }

  lemma {:induction false} WithoutAllDropped(lines: seq<string>, drop: string -> bool)
    requires forall l :: l in lines ==> drop(l)
    ensures Without(lines, drop) == []
    decreases |lines|
  {
    if lines != [] {
      WithoutAllDropped(lines[..|lines| - 1], drop);
    }
  }

  /** Filtering again after appending only lines that are dropped gives the first result. */
  lemma FilterAgainAfterDroppedLines(lines: seq<string>, extra: seq<string>, drop: string -> bool)
    requires forall l :: l in extra ==> drop(l)
    ensures Without(Without(lines, drop) + extra, drop) == Without(lines, drop)
  {
    var kept := Without(lines, drop);
    WithoutAppend(kept, extra, drop);
    WithoutAllDropped(extra, drop);
    WithoutMembers(lines, drop);
    WithoutMembers(kept, drop);
    assert kept + [] == kept;
  }

  /** Rewriting a rewritten file changes nothing. */
  lemma PatchIdempotent(lines: seq<string>)
    ensures Patched(Patched(lines)) == Patched(lines)
  {
    RequiredLinesSetRequiredKeys();
    FilterAgainAfterDroppedLines(lines, REQUIRED_LINES, SetsRequiredKey);
  }

  /** The loop of patch_sshd_config that builds `new_lines`. */
  method PatchLines(lines: seq<string>) returns (newLines: seq<string>)
    ensures newLines == Patched(lines)
    ensures |newLines| >= 3 && newLines[|newLines| - 3..] == REQUIRED_LINES
    ensures forall l :: l in newLines[..|newLines| - 3] <==> l in lines && !SetsRequiredKey(l)
  {
    newLines := [];
    for i := 0 to |lines|
      invariant newLines == Without(lines[..i], SetsRequiredKey)
    {
      assert lines[..i + 1][..i] == lines[..i];
      if !SetsRequiredKey(lines[i]) {
        newLines := newLines + [lines[i]];
      }
    }
    assert lines[..|lines|] == lines;
    ghost var kept := newLines;
    for k := 0 to |REQUIRED_KEYS|
      invariant newLines == kept + REQUIRED_LINES[..k]
    {
      newLines := newLines + [REQUIRED_KEYS[k] + " " + REQUIRED_VALUES[k] + "\n"];
      assert REQUIRED_LINES[..k + 1] == REQUIRED_LINES[..k] + [RequiredLine(k)];
    }
    assert REQUIRED_LINES[..|REQUIRED_KEYS|] == REQUIRED_LINES;
    assert newLines[..|newLines| - 3] == kept;
    WithoutMembers(lines, SetsRequiredKey);
  }

  // ---------------------------------------------------------------------------------------
  // File level: f.writelines(new_lines) writes the lines back to back, and the next run's
  // f.readlines() cuts the text after every newline.

  /** `"".join(lines)`, the text f.writelines(lines) writes. */
  function Concat(lines: seq<string>): string {
    if lines == [] then "" else lines[0] + Concat(lines[1..])
  }

  /** The length of the first line of a text: through its first newline, or the whole text. */
  function FirstLineLength(text: string): (n: nat)
    requires text != []
    ensures 0 < n <= |text|
    ensures forall i :: 0 <= i < n - 1 ==> text[i] != '\n'
    ensures text[n - 1] == '\n' || n == |text|
  {
    if text[0] == '\n' || |text| == 1 then 1 else 1 + FirstLineLength(text[1..])
  }

  /** f.readlines(): the text cut after every newline; the last line may lack one. */
  function ReadLines(text: string): seq<string>
    decreases |text|
  {
    if text == [] then []
    else
      var n := FirstLineLength(text);
      [text[..n]] + ReadLines(text[n..])
  }

  predicate Terminated(line: string) {
    line != [] && line[|line| - 1] == '\n'
  }

  /** A non-empty line with no newline before its last character. */
  predicate IsLine(line: string) {
    line != [] && forall i :: 0 <= i < |line| - 1 ==> line[i] != '\n'
  }

  /** What readlines() can return: lines, each but the last ending with a newline. */
  predicate LineList(lines: seq<string>) {
    forall k :: 0 <= k < |lines| ==> IsLine(lines[k]) && (k < |lines| - 1 ==> Terminated(lines[k]))
  }

  lemma {:induction false} ConcatAppend(a: seq<string>, b: seq<string>)
    ensures Concat(a + b) == Concat(a) + Concat(b)
    decreases |a|
  {
    if a == [] {
      assert a + b == b;
    } else {
      ConcatAppend(a[1..], b);
      assert (a + b)[1..] == a[1..] + b;
    }
  }

  /** readlines() gives lines whose concatenation is the text it read. */
  lemma {:induction false} ReadLinesShape(text: string)
    ensures LineList(ReadLines(text)) && Concat(ReadLines(text)) == text
    decreases |text|
  {
    if text != [] {
      var n := FirstLineLength(text);
      var rest := ReadLines(text[n..]);
      ReadLinesShape(text[n..]);
      var r := [text[..n]] + rest;
      assert r[1..] == rest;
      assert text[..n] + text[n..] == text;
      forall k | 0 <= k < |r| ensures IsLine(r[k]) && (k < |r| - 1 ==> Terminated(r[k])) {
        if k > 0 {
          assert r[k] == rest[k - 1];
        } else if k < |r| - 1 {
          assert rest != [];
          assert n < |text|;
        }
      }
    }
  }

  /** The first line of `line + rest` is `line` itself when `line` is one line that ends with
      a newline, or when nothing follows it. */
  lemma FirstLineOfConcat(line: string, rest: string)
    requires IsLine(line) && (Terminated(line) || rest == [])
    ensures FirstLineLength(line + rest) == |line|
  {
    assert forall i :: 0 <= i < |line| ==> (line + rest)[i] == line[i];
  }

  /** Reading back what writelines wrote gives the same lines, for any list readlines() could
      have produced. */
  lemma {:induction false} ReadLinesConcat(lines: seq<string>)
    requires LineList(lines)
    ensures ReadLines(Concat(lines)) == lines
    decreases |lines|
  {
    if lines != [] {
      var tail := lines[1..];
      assert LineList(tail) by {
        forall k | 0 <= k < |tail| ensures IsLine(tail[k]) && (k < |tail| - 1 ==> Terminated(tail[k])) {
          assert tail[k] == lines[k + 1];
        }
      }
      ReadLinesConcat(tail);
      var text := Concat(lines);
      assert text == lines[0] + Concat(tail);
      FirstLineOfConcat(lines[0], Concat(tail));
      assert text[..|lines[0]|] == lines[0];
      assert text[|lines[0]|..] == Concat(tail);
      assert lines == [lines[0]] + tail;
    }
  }

  /** The file patch_sshd_config writes for the file it reads. */
  function PatchFile(text: string): string {
    Concat(Patched(ReadLines(text)))
  }

  lemma RequiredLinesDiffer()
    ensures RequiredLine(0) != RequiredLine(1) && RequiredLine(0) != RequiredLine(2)
  {
    assert RequiredLine(0)[1] != RequiredLine(1)[1];
    assert RequiredLine(0)[0] != RequiredLine(2)[0];
  }

  /** The lines the rewrite of `a\nb` reads back: the first setting glued to `b`. */
  const GLUED: seq<string> := ["a\n", "b" + RequiredLine(0), RequiredLine(1), RequiredLine(2)]

  lemma FirstRewriteOfUnterminated()
    ensures Patched(ReadLines("a\nb")) == ["a\n", "b"] + REQUIRED_LINES
  {
    var lines := ["a\n", "b"];
    assert LineList(lines);
    assert Concat(lines) == "a\nb";
    ReadLinesConcat(lines);
    NotSetsRequiredKey("a\n");
    NotSetsRequiredKey("b");
    WithoutMembers(lines, SetsRequiredKey);
  }

  /** A line that starts with a character other than white space, `P` or `A` sets none of
      the required keys. */
  lemma NotSetsRequiredKey(line: string)
    requires line != [] && !IsSpace(line[0]) && line[0] != 'P' && line[0] != 'A'
    ensures !SetsRequiredKey(line)
  {
    assert StripLeft(line) == line;
    StripRightSpec(line);
    var r := Strip(line);
    assert r == [] || r[0] == line[0];
    assert REQUIRED_KEYS[0][0] == 'P' && REQUIRED_KEYS[1][0] == 'P' && REQUIRED_KEYS[2][0] == 'A';
  }

  lemma ConcatGlue(x: string, y: string, r0: string, r1: string, r2: string)
    ensures Concat([x, y, r0, r1, r2]) == Concat([x, y + r0, r1, r2])
  {
    assert [x, y, r0, r1, r2][1..] == [y, r0, r1, r2];
    assert [y, r0, r1, r2][1..] == [r0, r1, r2];
    assert [r0, r1, r2][1..] == [r1, r2];
    assert [x, y + r0, r1, r2][1..] == [y + r0, r1, r2];
    assert [y + r0, r1, r2][1..] == [r1, r2];
    assert [r1, r2][1..] == [r2];
    assert [r2][1..] == [];
    var tail := Concat([r1, r2]);
    assert Concat([r0, r1, r2]) == r0 + tail;
    assert Concat([y, r0, r1, r2]) == y + (r0 + tail);
    assert Concat([x, y, r0, r1, r2]) == x + (y + (r0 + tail));
    assert Concat([x, y + r0, r1, r2]) == x + ((y + r0) + tail);
  }

  lemma WithoutKeepsTwo(x: string, y: string, r1: string, r2: string, drop: string -> bool)
    requires !drop(x) && !drop(y) && drop(r1) && drop(r2)
    ensures Without([x, y, r1, r2], drop) == [x, y]
  {
    assert [x, y, r1, r2][..3] == [x, y, r1];
    assert [x, y, r1][..2] == [x, y];
    assert [x, y][..1] == [x];
    assert [x][..0] == [];
    assert Without([x], drop) == [x];
    assert Without([x, y], drop) == [x, y];
    assert Without([x, y, r1], drop) == [x, y];
  }

  lemma GluedWritten()
    ensures Concat(["a\n", "b"] + REQUIRED_LINES) == Concat(GLUED)
  {
    assert ["a\n", "b"] + REQUIRED_LINES == ["a\n", "b", RequiredLine(0), RequiredLine(1), RequiredLine(2)];
    ConcatGlue("a\n", "b", RequiredLine(0), RequiredLine(1), RequiredLine(2));
  }

  lemma GluedIsLineList()
    ensures LineList(GLUED)
  {
    RequiredLinesProper();
    var g := "b" + RequiredLine(0);
    forall i | 0 <= i < |g| - 1 ensures g[i] != '\n' {
      if i > 0 {
        assert g[i] == RequiredLine(0)[i - 1];
      }
    }
  }

  lemma SecondRewriteOfGlued()
    ensures Patched(GLUED) == GLUED[..2] + REQUIRED_LINES
  {
    NotSetsRequiredKey("a\n");
    NotSetsRequiredKey("b" + RequiredLine(0));
    KeyLineSetsKey(1, REQUIRED_VALUES[1]);
    KeyLineSetsKey(2, REQUIRED_VALUES[2]);
    WithoutKeepsTwo("a\n", "b" + RequiredLine(0), RequiredLine(1), RequiredLine(2), SetsRequiredKey);
  }

  lemma RewriteOfUnterminatedReadsGlued()
    ensures ReadLines(PatchFile("a\nb")) == GLUED
  {
    FirstRewriteOfUnterminated();
    GluedWritten();
    GluedIsLineList();
    ReadLinesConcat(GLUED);
  }

  lemma GluedLacksSetting()
    ensures RequiredLine(0) !in GLUED
  {
    RequiredLinesDiffer();
    assert |"b" + RequiredLine(0)| != |RequiredLine(0)|;
  }

  lemma SecondRewriteDiffers()
    ensures Concat(Patched(GLUED)) != Concat(GLUED)
  {
    SecondRewriteOfGlued();
    var rest := [RequiredLine(1), RequiredLine(2)];
    assert GLUED == GLUED[..2] + rest;
    ConcatAppend(GLUED[..2], rest);
    ConcatAppend(GLUED[..2], REQUIRED_LINES);
    assert |Concat(REQUIRED_LINES)| > |Concat(rest)|;
  }

  /** As written: a file whose last line has no newline gets the first setting glued to that
      line (`bPubkeyAuthentication yes`), so the rewritten file holds no line that sets
      PubkeyAuthentication, and a second rewrite appends the settings again. */
  lemma UnterminatedLastLineGluesSetting()
    ensures ReadLines(PatchFile("a\nb")) == GLUED
    ensures RequiredLine(0) !in ReadLines(PatchFile("a\nb"))
    ensures PatchFile(PatchFile("a\nb")) != PatchFile("a\nb")
  {
    RewriteOfUnterminatedReadsGlued();
    GluedLacksSetting();
    SecondRewriteDiffers();
    FirstRewriteOfUnterminated();
    GluedWritten();
  }

  // The corrected rewrite: end the last line before appending the settings.

  /** The lines with a newline added to the last one when it lacks one. */
  function TerminateLast(lines: seq<string>): seq<string> {
    if lines == [] || Terminated(lines[|lines| - 1]) then lines
    else lines[..|lines| - 1] + [lines[|lines| - 1] + "\n"]
  }

  function PatchedTerminated(lines: seq<string>): seq<string> {
    Without(TerminateLast(lines), SetsRequiredKey) + REQUIRED_LINES
  }

  function PatchFileTerminated(text: string): string {
    Concat(PatchedTerminated(ReadLines(text)))
  }

  lemma RequiredLinesProper()
    ensures forall l :: l in REQUIRED_LINES ==> IsLine(l) && Terminated(l)
  {
    assert IsLine(RequiredLine(0)) && IsLine(RequiredLine(1)) && IsLine(RequiredLine(2));
  }

  /** Every line that readlines() returns comes out of TerminateLast whole and ending with a
      newline. */
  lemma TerminateLastProper(lines: seq<string>)
    requires LineList(lines)
    ensures forall l :: l in TerminateLast(lines) ==> IsLine(l) && Terminated(l)
  {
    if lines != [] && !Terminated(lines[|lines| - 1]) {
      var last := lines[|lines| - 1];
      assert IsLine(last);
      assert forall i :: 0 <= i < |last| ==> last[i] != '\n';
      var t := last + "\n";
      assert forall i :: 0 <= i < |t| - 1 ==> t[i] == last[i];
      forall l | l in TerminateLast(lines) ensures IsLine(l) && Terminated(l) {
        if l != t {
          var k :| 0 <= k < |lines| - 1 && lines[..|lines| - 1][k] == l;
          assert lines[k] == l;
        }
      }
    } else {
      forall l | l in lines ensures IsLine(l) && Terminated(l) {
        var k :| 0 <= k < |lines| && lines[k] == l;
      }
    }
  }

  /** The corrected rewrite writes a file that reads back as the lines it meant to write, so
      the three settings are lines of their own, and rewriting that file changes nothing. */
  lemma PatchFileTerminatedIdempotent(text: string)
    ensures var r := ReadLines(PatchFileTerminated(text));
      |r| >= 3 && r[|r| - 3..] == REQUIRED_LINES
    ensures PatchFileTerminated(PatchFileTerminated(text)) == PatchFileTerminated(text)
  {
    var lines := ReadLines(text);
    ReadLinesShape(text);
    var t := TerminateLast(lines);
    TerminateLastProper(lines);
    var kept := Without(t, SetsRequiredKey);
    WithoutMembers(t, SetsRequiredKey);
    RequiredLinesProper();
    var p := kept + REQUIRED_LINES;
    assert LineList(p) by {
      forall k | 0 <= k < |p| ensures IsLine(p[k]) && Terminated(p[k]) {
        assert p[k] in p;
      }
    }
    ReadLinesConcat(p);
    assert TerminateLast(p) == p;
    RequiredLinesSetRequiredKeys();
    FilterAgainAfterDroppedLines(t, REQUIRED_LINES, SetsRequiredKey);
    assert PatchedTerminated(p) == p;
    assert p[|p| - 3..] == REQUIRED_LINES;
  }

  /** On a file whose last line ends with a newline, the corrected rewrite is the original. */
  lemma PatchedTerminatedAgrees(lines: seq<string>)
    requires lines == [] || Terminated(lines[|lines| - 1])
    ensures PatchedTerminated(lines) == Patched(lines)
  {
  }
}
