/**
  The "looks like PHP-serialized" heuristic and the indented tree printer of
  `SerializationService`. The deserializer is a library; the printer reads
  the tree it produces, modelled here as dictionaries, lists and scalars
  whose text is given.
 */
module SerializationService {
  import opened Decimal

  /** The heuristic reads at most this many characters. */
  const SampleLength: nat := 200

  /** The first `min(200, |text|)` characters. */
  function Sample(text: string): (sample: string)
    ensures |sample| == if |text| > SampleLength then SampleLength else |text|
    ensures sample == text[..|sample|]
  {
    if |text| > SampleLength then text[..SampleLength] else text
  }

  predicate StartsWith(s: string, prefix: string) {
    |prefix| <= |s| && s[..|prefix|] == prefix
  }

  /** The seven leading tags of the format: array, string, int, bool, null, object, double. */
  predicate HasKnownPrefix(s: string) {
    StartsWith(s, "a:") || StartsWith(s, "s:") || StartsWith(s, "i:") ||
    StartsWith(s, "b:") || StartsWith(s, "N;") || StartsWith(s, "O:") ||
    StartsWith(s, "d:")
  }

  /**
    The regular expression `^(a|s|i|b|d|O):\d+[:;{]`, for a digit class
    `isDigit`: a tag letter, a colon, one or more digits, then one of `:;{`.
   */
  predicate MatchesTagPattern(s: string, isDigit: char -> bool) {
    && |s| >= 2 && s[0] in "asibdO" && s[1] == ':'
    && exists k :: 3 <= k < |s| && s[k] in ":;{" && forall j :: 2 <= j < k ==> isDigit(s[j])
  }

  /** The regular expression never accepts a sample that the prefix test rejected, whatever `\d` matches. */
  lemma PatternImpliesPrefix(s: string, isDigit: char -> bool)
    ensures MatchesTagPattern(s, isDigit) ==> HasKnownPrefix(s)
  {
  }

  /** LooksLikePhpSerialized: the prefix test on the sample, then the regular expression. */
  function LooksLikePhpSerialized(text: string): (looks: bool)
    ensures |text| == 0 ==> !looks
    ensures looks <==> HasKnownPrefix(text)
  {
    if |text| == 0 then false
    else
      var sample := Sample(text);
      assert HasKnownPrefix(sample) <==> HasKnownPrefix(text) by {
        assert |sample| >= 2 ==> sample[..2] == text[..2];
      }
      PatternImpliesPrefix(sample, IsDigit);
      HasKnownPrefix(sample) || MatchesTagPattern(sample, IsDigit)
  }

  /** Text after the first 200 characters never changes the verdict. */
  lemma VerdictIgnoresTail(text: string, tail: string)
    requires |text| >= SampleLength
    ensures LooksLikePhpSerialized(text + tail) == LooksLikePhpSerialized(text)
  {
  }

  // ---------------------------------------------------------- the tree

  /** The deserialized value: a dictionary in enumeration order, a list, or a scalar already in its text form. */
  datatype Node =
    | Dict(entries: seq<Entry>)
    | List(items: seq<Node>)
    | Scalar(text: string)

  datatype Entry = Entry(key: string, value: Node)

  /** Two spaces per level. */
  function Indent(level: nat): (s: string)
    ensures |s| == 2 * level && forall k :: 0 <= k < |s| ==> s[k] == ' '
  {
    if level == 0 then "" else Indent(level - 1) + "  "
  }

  /** Every line of `lines` starts with the indentation of `level`. */
  ghost predicate IndentedAt(lines: seq<string>, level: nat) {
    forall k :: 0 <= k < |lines| ==> |lines[k]| >= 2 * level && lines[k][..2 * level] == Indent(level)
  }

  /**
    DumpPretty: the lines written for `node` at `level`, in pre-order. A
    scalar is one line; each dictionary entry is a `key:` line followed by the
    value one level deeper; each list element is an `[i]:` line followed by the
    element one level deeper.
   */
  function DumpPretty(node: Node, level: nat): (lines: seq<string>)
    ensures IndentedAt(lines, level)
    ensures node.Scalar? ==> lines == [Indent(level) + node.text]
    ensures node.Dict? && |node.entries| == 0 ==> lines == []
    ensures node.List? && |node.items| == 0 ==> lines == []
    decreases node, 1
  {
    match node
    case Dict(entries) => DumpEntries(entries, level)
    case List(items) => DumpItems(items, 0, level)
    case Scalar(text) => [Indent(level) + text]
  }

  function KeyLine(key: string, level: nat): string {
    Indent(level) + key + ":"
  }

  function PositionLine(i: nat, level: nat): string {
    Indent(level) + "[" + NatToString(i) + "]:"
  }

  lemma HeaderThenIndented(header: string, level: nat, body: seq<string>, rest: seq<string>)
    requires |header| >= 2 * level && header[..2 * level] == Indent(level)
    requires IndentedAt(body, level + 1) && IndentedAt(rest, level)
    ensures IndentedAt([header] + body + rest, level)
  {
  }

  /** The dictionary entries in enumeration order. */
  function DumpEntries(entries: seq<Entry>, level: nat): (lines: seq<string>)
    ensures IndentedAt(lines, level)
    ensures |entries| == 0 ==> lines == []
    decreases entries, 0
  {
    if |entries| == 0 then []
    else
      var header := KeyLine(entries[0].key, level);
      var body := DumpPretty(entries[0].value, level + 1);
      var rest := DumpEntries(entries[1..], level);
      HeaderThenIndented(header, level, body, rest);
      [header] + body + rest
  }

  /** The list elements from position `i` on. */
  function DumpItems(items: seq<Node>, i: nat, level: nat): (lines: seq<string>)
    ensures IndentedAt(lines, level)
    ensures |items| == 0 ==> lines == []
    decreases items, 0
  {
    if |items| == 0 then []
    else
      var header := PositionLine(i, level);
      var body := DumpPretty(items[0], level + 1);
      var rest := DumpItems(items[1..], i + 1, level);
      HeaderThenIndented(header, level, body, rest);
      [header] + body + rest
  }

  /** Each entry contributes its key line and its value's lines, in enumeration order. */
  lemma {:induction false} DumpEntriesConcat(a: seq<Entry>, b: seq<Entry>, level: nat)
    ensures DumpEntries(a + b, level) == DumpEntries(a, level) + DumpEntries(b, level)
    decreases |a|
  {
    if |a| == 0 {
      assert a + b == b;
    } else {
      assert (a + b)[0] == a[0];
      assert (a + b)[1..] == a[1..] + b;
      DumpEntriesConcat(a[1..], b, level);
    }
  }

  /** Each element contributes its `[i]:` line, with its 0-based position, and its lines. */
  lemma {:induction false} DumpItemsConcat(a: seq<Node>, b: seq<Node>, i: nat, level: nat)
    ensures DumpItems(a + b, i, level) == DumpItems(a, i, level) + DumpItems(b, i + |a|, level)
    decreases |a|
  {
    if |a| == 0 {
      assert a + b == b;
    } else {
      assert (a + b)[0] == a[0];
      assert (a + b)[1..] == a[1..] + b;
      DumpItemsConcat(a[1..], b, i + 1, level);
    }
  }

  /** One entry renders as its key line followed immediately by its value one level deeper. */
  lemma DumpOneEntry(e: Entry, level: nat)
    ensures DumpEntries([e], level) == [KeyLine(e.key, level)] + DumpPretty(e.value, level + 1)
  {
  }

  /** The element at position `i` renders as `[i]:` followed immediately by the element one level deeper. */
  lemma DumpOneItem(n: Node, i: nat, level: nat)
    ensures DumpItems([n], i, level) == [PositionLine(i, level)] + DumpPretty(n, level + 1)
  {
  }

  /** Prefix every line with `p`. */
  function PrefixLines(p: string, lines: seq<string>): (r: seq<string>)
    ensures |r| == |lines| && forall k :: 0 <= k < |lines| ==> r[k] == p + lines[k]
  {
    seq(|lines|, k requires 0 <= k < |lines| => p + lines[k])
  }

  lemma PrefixLinesConcat(p: string, a: seq<string>, b: seq<string>)
    ensures PrefixLines(p, a + b) == PrefixLines(p, a) + PrefixLines(p, b)
  {
  }

  lemma PrefixLinesTwice(p: string, q: string, lines: seq<string>)
    ensures PrefixLines(p, PrefixLines(q, lines)) == PrefixLines(p + q, lines)
  {
    forall k | 0 <= k < |lines| ensures p + (q + lines[k]) == (p + q) + lines[k] { }
  }

  /**
    The level only indents: rendering at `level` is rendering at level 0 with
    `2 * level` spaces put in front of every line.
   */
  lemma {:induction false} DumpPrettyShift(node: Node, level: nat)
    ensures DumpPretty(node, level) == PrefixLines(Indent(level), DumpPretty(node, 0))
    decreases node, 1
  {
    match node
    case Dict(entries) => DumpEntriesShift(entries, level);
    case List(items) => DumpItemsShift(items, 0, level);
    case Scalar(text) =>
      assert Indent(0) + text == text;
  }

  lemma {:induction false} DumpEntriesShift(entries: seq<Entry>, level: nat)
    ensures DumpEntries(entries, level) == PrefixLines(Indent(level), DumpEntries(entries, 0))
    decreases entries, 0
  {
    if |entries| > 0 {
      var e := entries[0];
      DumpPrettyShift(e.value, level + 1);
      DumpPrettyShift(e.value, 1);
      DumpEntriesShift(entries[1..], level);
      IndentSplit(level);
      PrefixLinesTwice(Indent(level), Indent(1), DumpPretty(e.value, 0));
      assert KeyLine(e.key, level) == Indent(level) + KeyLine(e.key, 0);
      PrefixLinesConcat(Indent(level), [KeyLine(e.key, 0)] + DumpPretty(e.value, 1), DumpEntries(entries[1..], 0));
      PrefixLinesConcat(Indent(level), [KeyLine(e.key, 0)], DumpPretty(e.value, 1));
    }
  }

  lemma {:induction false} DumpItemsShift(items: seq<Node>, i: nat, level: nat)
    ensures DumpItems(items, i, level) == PrefixLines(Indent(level), DumpItems(items, i, 0))
    decreases items, 0
  {
    if |items| > 0 {
      var n := items[0];
      DumpPrettyShift(n, level + 1);
      DumpPrettyShift(n, 1);
      DumpItemsShift(items[1..], i + 1, level);
      IndentSplit(level);
      PrefixLinesTwice(Indent(level), Indent(1), DumpPretty(n, 0));
      assert PositionLine(i, level) == Indent(level) + PositionLine(i, 0);
      PrefixLinesConcat(Indent(level), [PositionLine(i, 0)] + DumpPretty(n, 1), DumpItems(items[1..], i + 1, 0));
      PrefixLinesConcat(Indent(level), [PositionLine(i, 0)], DumpPretty(n, 1));
    }
  }

  lemma IndentSplit(level: nat)
    ensures Indent(level + 1) == Indent(level) + Indent(1)
    ensures Indent(0) == ""
  {
  }
}
