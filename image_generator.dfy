/** The stickman frame drawn for one scene description: the pose chosen from
    keywords in the description and the caption word-wrapped under the figure.
    Strokes, arcs and the PNG encoding are not modelled; the text measurement of
    the canvas is an abstract width function `measure`. */
module ImageGenerator {
  import opened Text

  const Width: nat := 1280
  const Height: nat := 720
  const CenterX: int := 640
  const CenterY: int := 360
  /** Widest caption line, in canvas units, before a new line is started. */
  const MaxWidth: real := 1100.0
  /** Baseline of the first caption line. */
  const FirstBaseline: int := 650
  /** Distance between the baselines of consecutive caption lines. */
  const LineHeight: int := 30

  /** The arm angle: raised (-PI/4 radians) or lowered (PI/6 radians). */
  datatype ArmAngle = Raised | Lowered

  datatype Pose = Pose(leftArm: ArmAngle, rightArm: ArmAngle, legSpread: int)

  datatype Point = Point(x: real, y: real)

  /** One `fillText(text, x, y)` call. */
  datatype TextDraw = TextDraw(text: string, x: int, y: int)

  /** What the canvas holds when it is encoded: its size, the figure's pose and
      the caption lines in drawing order. */
  datatype Image = Image(width: nat, height: nat, pose: Pose, caption: seq<TextDraw>)

  /** The keyword test on the lower-cased description. */
  ghost predicate Mentions(description: string, keyword: string) {
    exists i :: OccursAt(ToLower(description), keyword, i)
  }

  /** Both arms are raised exactly when the description mentions "waving"; the
      legs spread 80 units exactly when it mentions "jumping", and 50 otherwise. */
  function SelectPose(description: string): (p: Pose)
    ensures p.leftArm == p.rightArm
    ensures p.leftArm == Raised <==> Mentions(description, "waving")
    ensures p.legSpread == 80 <==> Mentions(description, "jumping")
    ensures p.legSpread == 50 <==> !Mentions(description, "jumping")
  {
    var lower := ToLower(description);
    var leftArm := if Contains(lower, "waving") then Raised else Lowered;
    var rightArm := if Contains(lower, "waving") then Raised else Lowered;
    var legSpread := if Contains(lower, "jumping") then 80 else 50;
    Pose(leftArm, rightArm, legSpread)
  }

  /** The feet: both 150 units below the centre, mirror images of each other
      about the vertical through the centre, `legSpread` apart. */
  function LegEnds(p: Pose): (feet: (Point, Point))
    ensures feet.0.y == feet.1.y == CenterY as real + 150.0
    ensures feet.0.x + feet.1.x == 2.0 * CenterX as real
    ensures feet.1.x - feet.0.x == p.legSpread as real
  {
    (Point(CenterX as real - p.legSpread as real / 2.0, CenterY as real + 150.0),
     Point(CenterX as real + p.legSpread as real / 2.0, CenterY as real + 150.0))
  }

  /** The greedy wrap of `words`, continuing a caption line that already holds
      `line` at baseline `y`: each word and a space go onto the current line,
      unless that makes it wider than `MaxWidth` while it already holds something;
      then the current line is drawn and the word starts the next one. The last
      line is always drawn. */
  function WrapFrom(words: seq<string>, line: string, y: int, measure: string -> real): seq<TextDraw>
    decreases |words|
  {
    if words == [] then [TextDraw(line, CenterX, y)]
    else
      var testLine := line + words[0] + " ";
      if measure(testLine) > MaxWidth && line != "" then
        [TextDraw(line, CenterX, y)] + WrapFrom(words[1..], words[0] + " ", y + LineHeight, measure)
      else
        WrapFrom(words[1..], testLine, y, measure)
  }

  /** The caption of `description`: its words, split on single spaces, wrapped
      from an empty line at the first baseline. */
  function Caption(description: string, measure: string -> real): seq<TextDraw> {
    WrapFrom(Split(description, ' '), "", FirstBaseline, measure)
  }

  /** The wrap loop, drawing as it goes. */
  method DrawCaption(description: string, measure: string -> real) returns (draws: seq<TextDraw>)
    ensures draws == Caption(description, measure)
  {
    var words := Split(description, ' ');
    var line := "";
    var y := FirstBaseline;
    draws := [];
    for i := 0 to |words|
      invariant draws + WrapFrom(words[i..], line, y, measure) == Caption(description, measure)
    {
      var word := words[i];
      var testLine := line + word + " ";
      assert words[i..][1..] == words[i + 1..];
      if measure(testLine) > MaxWidth && line != "" {
        draws := draws + [TextDraw(line, CenterX, y)];
        line := word + " ";
        y := y + LineHeight;
      } else {
        line := testLine;
      }
    }
    draws := draws + [TextDraw(line, CenterX, y)];
  }

  /** The frame for a description, as `generateStickmanImage` draws it before
      writing it out. */
  function Render(description: string, measure: string -> real): Image {
    Image(Width, Height, SelectPose(description), Caption(description, measure))
  }

  /** Draws the frame: a 1280x720 canvas, the pose chosen from the description
      and its wrapped caption. */
  method GenerateStickmanImage(description: string, measure: string -> real) returns (image: Image)
    ensures image.width == 1280 && image.height == 720
    ensures image.pose == SelectPose(description)
    ensures image.caption == Caption(description, measure)
    ensures image == Render(description, measure)
  {
    var pose := SelectPose(description);
    var caption := DrawCaption(description, measure);
    image := Image(Width, Height, pose, caption);
  }

  // ---------------------------------------------------------------------------
  // Properties of the caption wrap

  /** Each word followed by one space, in order. */
  function Spaced(words: seq<string>): string
    decreases |words|
  {
    if words == [] then [] else words[0] + " " + Spaced(words[1..])
  }

  /** All drawn caption text, concatenated in drawing order. */
  function Concat(draws: seq<TextDraw>): string
    decreases |draws|
  {
    if draws == [] then [] else draws[0].text + Concat(draws[1..])
  }

  lemma {:induction false} WrapKeepsWords(words: seq<string>, line: string, y: int, measure: string -> real)
    ensures Concat(WrapFrom(words, line, y, measure)) == line + Spaced(words)
    decreases |words|
  {
    if words == [] {
      assert Concat([TextDraw(line, CenterX, y)]) == line + Concat([]);
    } else {
      var w := words[0];
      if measure(line + w + " ") > MaxWidth && line != "" {
        var rest := WrapFrom(words[1..], w + " ", y + LineHeight, measure);
        WrapKeepsWords(words[1..], w + " ", y + LineHeight, measure);
        assert ([TextDraw(line, CenterX, y)] + rest)[1..] == rest;
      } else {
        WrapKeepsWords(words[1..], line + w + " ", y, measure);
      }
    }
  }

  lemma {:induction false} SpacedIsJoin(words: seq<string>)
    requires words != []
    ensures Spaced(words) == Join(words, " ") + " "
    decreases |words|
  {
    if |words| > 1 {
      SpacedIsJoin(words[1..]);
    }
  }

  /** No word is lost, duplicated or reordered: the caption lines, concatenated,
      spell out the description followed by one space. */
  lemma CaptionSpellsDescription(description: string, measure: string -> real)
    ensures Concat(Caption(description, measure)) == description + " "
  {
    var words := Split(description, ' ');
    WrapKeepsWords(words, "", FirstBaseline, measure);
    SpacedIsJoin(words);
  }

  lemma {:induction false} WrapBaselines(words: seq<string>, line: string, y: int, measure: string -> real)
    ensures var draws := WrapFrom(words, line, y, measure);
      |draws| >= 1 &&
      forall k :: 0 <= k < |draws| ==> draws[k].x == CenterX && draws[k].y == y + LineHeight * k
    decreases |words|
  {
    if words != [] {
      var w := words[0];
      if measure(line + w + " ") > MaxWidth && line != "" {
        WrapBaselines(words[1..], w + " ", y + LineHeight, measure);
      } else {
        WrapBaselines(words[1..], line + w + " ", y, measure);
      }
    }
  }

  /** Every caption line is centred; the first baseline is 650 and each further
      line sits 30 units lower; there is always at least the final line. */
  lemma CaptionBaselines(description: string, measure: string -> real)
    ensures var draws := Caption(description, measure);
      |draws| >= 1 &&
      forall k :: 0 <= k < |draws| ==> draws[k].x == 640 && draws[k].y == 650 + 30 * k
  {
    WrapBaselines(Split(description, ' '), "", FirstBaseline, measure);
  }

  /** `t` is one word followed by a single space. */
  predicate IsOneWord(t: string) {
    |t| >= 1 && t[|t| - 1] == ' ' && ' ' !in t[..|t| - 1]
  }

  /** A drawn line that is not a lone (possibly over-long) word fits the width. */
  predicate FitsOrOneWord(t: string, measure: string -> real) {
    measure(t) <= MaxWidth || IsOneWord(t)
  }

  predicate NoSpaces(words: seq<string>) {
    forall k :: 0 <= k < |words| ==> ' ' !in words[k]
  }

  lemma OneWordOf(w: string)
    requires ' ' !in w
    ensures IsOneWord(w + " ")
  {
    assert (w + " ")[..|w|] == w;
  }

  lemma {:induction false} WrapLinesFit(words: seq<string>, line: string, y: int, measure: string -> real)
    requires NoSpaces(words)
    requires line == "" || FitsOrOneWord(line, measure)
    ensures forall d :: d in WrapFrom(words, line, y, measure) ==> d.text == "" || FitsOrOneWord(d.text, measure)
    decreases |words|
  {
    if words != [] {
      var w := words[0];
      var testLine := line + w + " ";
      assert NoSpaces(words[1..]) by {
        forall k | 0 <= k < |words[1..]| ensures ' ' !in words[1..][k] {
          assert words[1..][k] == words[k + 1];
        }
      }
      if measure(testLine) > MaxWidth && line != "" {
        OneWordOf(w);
        WrapLinesFit(words[1..], w + " ", y + LineHeight, measure);
      } else {
        if line == "" {
          assert testLine == w + " ";
          OneWordOf(w);
        }
        WrapLinesFit(words[1..], testLine, y, measure);
      }
    }
  }

  lemma {:induction false} WrapNonEmpty(words: seq<string>, line: string, y: int, measure: string -> real)
    requires words != [] || line != ""
    ensures forall d :: d in WrapFrom(words, line, y, measure) ==> d.text != ""
    decreases |words|
  {
    if words != [] {
      var w := words[0];
      if measure(line + w + " ") > MaxWidth && line != "" {
        WrapNonEmpty(words[1..], w + " ", y + LineHeight, measure);
      } else {
        WrapNonEmpty(words[1..], line + w + " ", y, measure);
      }
    }
  }

  /** Every caption line is non-empty, and it either fits in 1100 units or holds
      a single word that alone is wider. */
  lemma CaptionLinesFit(description: string, measure: string -> real)
    ensures forall d :: d in Caption(description, measure) ==> d.text != "" && FitsOrOneWord(d.text, measure)
  {
    var words := Split(description, ' ');
    WrapLinesFit(words, "", FirstBaseline, measure);
    WrapNonEmpty(words, "", FirstBaseline, measure);
  }

  /** The prefix of `t` up to and including its first space (all of `t` if it has none). */
  function LeadingWord(t: string): string
    decreases |t|
  {
    if t == [] then []
    else if t[0] == ' ' then [' ']
    else [t[0]] + LeadingWord(t[1..])
  }

  lemma {:induction false} LeadingWordOf(w: string, rest: string)
    requires ' ' !in w
    ensures LeadingWord(w + " " + rest) == w + " "
    decreases |w|
  {
    if w != [] {
      LeadingWordOf(w[1..], rest);
      assert (w + " " + rest)[1..] == w[1..] + " " + rest;
      assert w == [w[0]] + w[1..];
    }
  }

  lemma {:induction false} WrapStartsWithLine(words: seq<string>, line: string, y: int, measure: string -> real)
    ensures var draws := WrapFrom(words, line, y, measure);
      |draws| >= 1 && |line| <= |draws[0].text| && draws[0].text[..|line|] == line
    decreases |words|
  {
    if words != [] {
      var w := words[0];
      var testLine := line + w + " ";
      if !(measure(testLine) > MaxWidth && line != "") {
        WrapStartsWithLine(words[1..], testLine, y, measure);
        var t := WrapFrom(words, line, y, measure)[0].text;
        assert t[..|line|] == t[..|testLine|][..|line|];
      }
    }
  }

  /** Each drawn line but the last is non-empty and overflows once the first
      word of the following line is appended to it. */
  predicate FlushedOnOverflow(draws: seq<TextDraw>, measure: string -> real) {
    forall k :: 0 <= k < |draws| - 1 ==>
      draws[k].text != "" && measure(draws[k].text + LeadingWord(draws[k + 1].text)) > MaxWidth
  }

  lemma {:induction false} WrapFlushesOnOverflow(words: seq<string>, line: string, y: int, measure: string -> real)
    requires NoSpaces(words)
    ensures FlushedOnOverflow(WrapFrom(words, line, y, measure), measure)
    decreases |words|
  {
    if words != [] {
      var w := words[0];
      var testLine := line + w + " ";
      assert NoSpaces(words[1..]) by {
        forall k | 0 <= k < |words[1..]| ensures ' ' !in words[1..][k] {
          assert words[1..][k] == words[k + 1];
        }
      }
      if measure(testLine) > MaxWidth && line != "" {
        var rest := WrapFrom(words[1..], w + " ", y + LineHeight, measure);
        WrapFlushesOnOverflow(words[1..], w + " ", y + LineHeight, measure);
        WrapStartsWithLine(words[1..], w + " ", y + LineHeight, measure);
        var next := rest[0].text;
        assert next == (w + " ") + next[|w + " "|..];
        LeadingWordOf(w, next[|w + " "|..]);
        var draws := [TextDraw(line, CenterX, y)] + rest;
        assert WrapFrom(words, line, y, measure) == draws;
        forall k | 0 <= k < |draws| - 1
          ensures draws[k].text != "" && measure(draws[k].text + LeadingWord(draws[k + 1].text)) > MaxWidth
        {
          if k > 0 {
            assert draws[k] == rest[k - 1] && draws[k + 1] == rest[k];
          } else {
            assert draws[1] == rest[0];
            assert line + (w + " ") == testLine;
          }
        }
      } else {
        WrapFlushesOnOverflow(words[1..], testLine, y, measure);
      }
    }
  }

  /** A line is drawn and a new one started only when it is non-empty and adding
      the next word and its space would make it wider than 1100 units. */
  lemma CaptionFlushesOnOverflow(description: string, measure: string -> real)
    ensures FlushedOnOverflow(Caption(description, measure), measure)
  {
    WrapFlushesOnOverflow(Split(description, ' '), "", FirstBaseline, measure);
  }
}
