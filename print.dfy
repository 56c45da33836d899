/**
 * The text rendering of a subtree: one line per node in pre-order, each
 * line indented by `height - level` spaces and giving the box corners as
 * `[(x1, y1), (x2, y2)]`.
 */
module Printing {
  import opened Geometry
  import opened Nodes

  /**
   * How a coordinate is written: the draft stores integers and writes them
   * as integers; the current version stores floats, which the standard
   * library writes with six decimals.
   */
  datatype Style = Integers | Floats

  // ---------------------------------------------------------------------
  // Numbers

  function Digit(d: nat): (c: char)
    requires d < 10
    ensures '0' <= c <= '9'
  {
    "0123456789"[d]
  }

  function DigitValue(c: char): nat
    requires '0' <= c <= '9'
  {
    c as nat - '0' as nat
  }

  /** Decimal digits of `n`, without leading zeros. */
  function NatToString(n: nat): (s: string)
    ensures |s| > 0 && forall i | 0 <= i < |s| :: '0' <= s[i] <= '9'
    ensures |s| > 1 ==> s[0] != '0'
  {
    if n < 10 then [Digit(n)] else NatToString(n / 10) + [Digit(n % 10)]
  }

  /** The value of a string of decimal digits. */
  function DigitsValue(s: string): nat
    requires forall i | 0 <= i < |s| :: '0' <= s[i] <= '9'
  {
    if s == [] then 0 else 10 * DigitsValue(s[..|s| - 1]) + DigitValue(s[|s| - 1])
  }

  /** Reading the digits back gives the number. */
  lemma {:induction false} NatToStringRoundTrip(n: nat)
    ensures DigitsValue(NatToString(n)) == n
  {
    var s := NatToString(n);
    if n >= 10 {
      var q, d := n / 10, n % 10;
      NatToStringRoundTrip(q);
      assert s == NatToString(q) + [Digit(d)];
      assert s[..|s| - 1] == NatToString(q);
      DigitRoundTrip(d);
    } else {
      DigitRoundTrip(n);
    }
  }

  lemma DigitRoundTrip(d: nat)
    requires d < 10
    ensures DigitValue(Digit(d)) == d
  {
  }

  function IntToString(i: int): (s: string)
    ensures |s| > 0
  {
    if i < 0 then "-" + NatToString(-i) else NatToString(i)
  }

  /** A coordinate in the given style. */
  function Coord(x: int, style: Style): string {
    match style
    case Integers => IntToString(x)
    case Floats => IntToString(x) + ".000000"
  }

  /** `k` spaces. */
  function Spaces(k: nat): (s: string)
    ensures |s| == k && forall i | 0 <= i < k :: s[i] == ' '
  {
    if k == 0 then "" else Spaces(k - 1) + " "
  }

  // ---------------------------------------------------------------------
  // Lines

  /** The indentation width of a node: `height - level` spaces, none when that is negative. */
  function Indent(n: Node, height: int): nat {
    if height - n.Level() > 0 then height - n.Level() else 0
  }

  /** The pieces of text, one after the other. */
  function Join(parts: seq<string>): string {
    if parts == [] then "" else Join(parts[..|parts| - 1]) + parts[|parts| - 1]
  }

  /** The corners of `r` as `[(x1, y1), (x2, y2)]` and a line break. */
  function Corners(r: Rect, style: Style): string {
    Join(CornerParts(r, style)) + ")]\n"
  }

  /** The text of `Corners` before the closing bracket, piece by piece. */
  function CornerParts(r: Rect, style: Style): seq<string> {
    ["[(", Coord(r.x1, style), ", ", Coord(r.y1, style), "), (", Coord(r.x2, style), ", ", Coord(r.y2, style)]
  }

  /** The text written for `n` itself. */
  function Line(n: Node, height: int, style: Style): string {
    Spaces(Indent(n, height)) + Corners(n.rect, style)
  }

  /** The text written for the subtree `n`. */
  function Render(n: Node, height: int, style: Style): string
    decreases n, 1
  {
    Line(n, height, style) + (if n.Internal? then RenderAll(n.children, height, style) else "")
  }

  function RenderAll(cs: seq<Node>, height: int, style: Style): string
    decreases cs, 0
  {
    if cs == [] then "" else RenderAll(cs[..|cs| - 1], height, style) + Render(cs[|cs| - 1], height, style)
  }

  /** Builds the indentation one space at a time. */
  method Indentation(height: int, level: int) returns (s: string)
    ensures s == Spaces(if height - level > 0 then height - level else 0)
  {
    s := "";
    var i := 0;
    while i < height - level
      invariant 0 <= i <= (if height - level > 0 then height - level else 0)
      invariant s == Spaces(i)
      decreases height - level - i
    {
      s := s + " ";
      i := i + 1;
    }
  }

  /** The line of `n` itself: its indentation and its corners. */
  method NodeInfo(n: Node, height: int, style: Style) returns (s: string)
    ensures s == Line(n, height, style)
  {
    var indentation := Indentation(height, n.Level());
    s := indentation + Corners(n.rect, style);
  }

  /** Writes the line of `n` and then, child by child, the text of each child's subtree. */
  method Print(n: Node, height: int, style: Style) returns (res: string)
    ensures res == Render(n, height, style)
    decreases n, 1
  {
    res := NodeInfo(n, height, style);
    if n.Internal? {
      var rest := PrintChildren(n.children, height, style);
      res := res + rest;
    }
  }

  /** The texts of the subtrees `cs`, one after the other. */
  method PrintChildren(cs: seq<Node>, height: int, style: Style) returns (rest: string)
    ensures rest == RenderAll(cs, height, style)
    decreases cs, 0
  {
    rest := "";
    for k := 0 to |cs|
      invariant rest == RenderAll(cs[..k], height, style)
    {
      assert cs[..k + 1][..k] == cs[..k];
      var text := Print(cs[k], height, style);
      rest := rest + text;
    }
    assert cs[..|cs|] == cs;
  }

  // ---------------------------------------------------------------------
  // Reference: the lines of the nodes in pre-order

  /** The nodes of the subtree `n`, each before its children. */
  function PreOrder(n: Node): seq<Node>
    decreases n, 1
  {
    [n] + (if n.Internal? then PreOrderOf(n.children) else [])
  }

  function PreOrderOf(cs: seq<Node>): seq<Node>
    decreases cs, 0
  {
    if cs == [] then [] else PreOrderOf(cs[..|cs| - 1]) + PreOrder(cs[|cs| - 1])
  }

  /** The texts `line(x)` of the nodes `x` of `ns`, one after the other. */
  function Lines(ns: seq<Node>, line: Node -> string): string {
    if ns == [] then "" else Lines(ns[..|ns| - 1], line) + line(ns[|ns| - 1])
  }

  lemma {:induction false} LinesConcat(a: seq<Node>, b: seq<Node>, line: Node -> string)
    ensures Lines(a + b, line) == Lines(a, line) + Lines(b, line)
    decreases |b|
  {
    if b == [] {
      assert a + b == a;
    } else {
      var b' := b[..|b| - 1];
      assert (a + b)[..|a + b| - 1] == a + b';
      assert (a + b)[|a + b| - 1] == b[|b| - 1];
      LinesConcat(a, b', line);
    }
  }

  /** The line of a node as a function of the node. */
  function LineOf(height: int, style: Style): Node -> string {
    x => Line(x, height, style)
  }

  /** The rendering is the lines of the nodes in pre-order. */
  lemma {:induction false} RenderIsLines(n: Node, height: int, style: Style)
    ensures Render(n, height, style) == Lines(PreOrder(n), LineOf(height, style))
    decreases n, 1
  {
    assert Lines([n], LineOf(height, style)) == Line(n, height, style) by {
      assert [n][..0] == [];
    }
    if n.Internal? {
      RenderAllIsLines(n.children, height, style);
      LinesConcat([n], PreOrderOf(n.children), LineOf(height, style));
    } else {
      assert PreOrder(n) == [n];
    }
  }

  lemma {:induction false} RenderAllIsLines(cs: seq<Node>, height: int, style: Style)
    ensures RenderAll(cs, height, style) == Lines(PreOrderOf(cs), LineOf(height, style))
    decreases cs, 0
  {
    if cs != [] {
      var cs' := cs[..|cs| - 1];
      RenderAllIsLines(cs', height, style);
      RenderIsLines(cs[|cs| - 1], height, style);
      LinesConcat(PreOrderOf(cs'), PreOrder(cs[|cs| - 1]), LineOf(height, style));
    }
  }

  lemma {:induction false} JoinStart(parts: seq<string>)
    requires |parts| > 0 && |parts[0]| > 0
    ensures |Join(parts)| > 0 && Join(parts)[0] == parts[0][0]
    decreases |parts|
  {
    if |parts| > 1 {
      JoinStart(parts[..|parts| - 1]);
    } else {
      assert parts[..0] == [];
    }
  }

  /** Each line starts with exactly its indentation, followed by the opening bracket. */
  lemma LineShape(n: Node, height: int, style: Style)
    ensures var l := Line(n, height, style); var k := Indent(n, height);
      |l| > k && l[..k] == Spaces(k) && l[k] == '['
  {
    JoinStart(CornerParts(n.rect, style));
  }

  // ---------------------------------------------------------------------
  // One line per node

  /** The number of line breaks in `s`. */
  function Breaks(s: string): nat {
    multiset(s)['\n']
  }

  lemma CoordNoBreaks(x: int, style: Style)
    ensures '\n' !in Coord(x, style)
  {
    var d := NatToString(if x < 0 then -x else x);
    assert '\n' !in d;
    assert '\n' !in Coord(x, style);
  }

  lemma {:induction false} JoinNoBreaks(parts: seq<string>)
    requires forall p | p in parts :: '\n' !in p
    ensures '\n' !in Join(parts)
    decreases |parts|
  {
    if parts != [] {
      var front := parts[..|parts| - 1];
      assert forall p | p in front :: p in parts;
      assert parts[|parts| - 1] in parts;
      JoinNoBreaks(front);
    }
  }

  /** Every line ends in its only line break. */
  lemma LineBreaks(n: Node, height: int, style: Style)
    ensures Breaks(Line(n, height, style)) == 1
  {
    var spaces := Spaces(Indent(n, height));
    var parts := CornerParts(n.rect, style);
    CornerPartsNoBreaks(n.rect, style);
    JoinNoBreaks(parts);
    assert '\n' !in spaces;
    var close := ")]\n";
    assert Line(n, height, style) == spaces + Join(parts) + close;
    BreaksAfter(spaces, Join(parts), close);
    CloseBreaks();
  }

  /** Text without line breaks adds none. */
  lemma BreaksAfter(a: string, b: string, c: string)
    requires '\n' !in a && '\n' !in b
    ensures Breaks(a + b + c) == Breaks(c)
  {
    assert multiset(a + b + c) == multiset(a) + multiset(b) + multiset(c);
  }

  lemma CloseBreaks()
    ensures Breaks(")]\n") == 1
  {
    assert multiset(")]\n") == multiset{')', ']', '\n'};
  }

  lemma CornerPartsNoBreaks(r: Rect, style: Style)
    ensures forall p | p in CornerParts(r, style) :: '\n' !in p
  {
    CoordNoBreaks(r.x1, style);
    CoordNoBreaks(r.y1, style);
    CoordNoBreaks(r.x2, style);
    CoordNoBreaks(r.y2, style);
  }

  lemma {:induction false} LinesBreaks(ns: seq<Node>, height: int, style: Style)
    ensures Breaks(Lines(ns, LineOf(height, style))) == |ns|
    decreases |ns|
  {
    if ns != [] {
      LinesBreaks(ns[..|ns| - 1], height, style);
      LineBreaks(ns[|ns| - 1], height, style);
    }
  }

  /** The number of nodes in the subtree `n`. */
  function Size(n: Node): nat
    decreases n, 1
  {
    1 + (if n.Internal? then SizeOf(n.children) else 0)
  }

  function SizeOf(cs: seq<Node>): nat
    decreases cs, 0
  {
    if cs == [] then 0 else SizeOf(cs[..|cs| - 1]) + Size(cs[|cs| - 1])
  }

  lemma {:induction false} PreOrderSize(n: Node)
    ensures |PreOrder(n)| == Size(n)
    decreases n, 1
  {
    if n.Internal? {
      PreOrderOfSize(n.children);
    }
  }

  lemma {:induction false} PreOrderOfSize(cs: seq<Node>)
    ensures |PreOrderOf(cs)| == SizeOf(cs)
    decreases cs, 0
  {
    if cs != [] {
      PreOrderOfSize(cs[..|cs| - 1]);
      PreOrderSize(cs[|cs| - 1]);
    }
  }

  /** The text of a subtree has exactly one line per node. */
  lemma OneLinePerNode(n: Node, height: int, style: Style)
    ensures Breaks(Render(n, height, style)) == Size(n)
  {
    RenderIsLines(n, height, style);
    LinesBreaks(PreOrder(n), height, style);
    PreOrderSize(n);
  }
}
