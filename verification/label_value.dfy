/** The label/value decoding rule applied to every "detail" block of a club
    page (`format_bsf_object`): the block's child nodes are turned into text,
    empty texts are dropped, the first remaining text is the label and the
    others, joined by newlines, are the value. */
module LabelValue {
  import opened Wrappers
  import opened Text

  /** A child node of a detail block: a bare string, or an element whose
      text is what `get_text()` returns for it. */
  datatype Node = TextNode(s: string) | Element(text: string)

  /** The decoded block: `caption` is the label part, `content` the value part. */
  datatype Labelled = Labelled(caption: string, content: string)

  /** Raised when a block has no nonempty child: `s[0]` on an empty list. */
  datatype DecodeError = NoContent

  function NodeText(n: Node): string
  {
    match n
    case TextNode(s) => s
    case Element(t) => t
  }

  /** The texts of `nodes` that are not empty, in document order. Only the
      empty string is dropped: whitespace-only strings are kept. */
  function NonEmptyTexts(nodes: seq<Node>): (texts: seq<string>)
    ensures forall i :: 0 <= i < |texts| ==> texts[i] != ""
    ensures |texts| <= |nodes|
  {
    if |nodes| == 0 then []
    else if NodeText(nodes[0]) == "" then NonEmptyTexts(nodes[1..])
    else [NodeText(nodes[0])] + NonEmptyTexts(nodes[1..])
  }

  /** Some text survives exactly when some node has nonempty text. */
  lemma {:induction false} NonEmptyTextsExist(nodes: seq<Node>)
    ensures |NonEmptyTexts(nodes)| > 0 <==> exists i :: 0 <= i < |nodes| && NodeText(nodes[i]) != ""
  {
    if |nodes| > 0 {
      NonEmptyTextsExist(nodes[1..]);
      if NodeText(nodes[0]) == "" {
        forall i | 1 <= i < |nodes|
          ensures nodes[i] == nodes[1..][i - 1]
        {
        }
        if exists i :: 0 <= i < |nodes| && NodeText(nodes[i]) != "" {
          var i :| 0 <= i < |nodes| && NodeText(nodes[i]) != "";
          assert NodeText(nodes[1..][i - 1]) != "";
        }
      }
    }
  }

  /** When no node is empty, nothing is dropped. */
  lemma {:induction false} NonEmptyTextsKeepsAll(nodes: seq<Node>)
    requires forall i :: 0 <= i < |nodes| ==> NodeText(nodes[i]) != ""
    ensures |NonEmptyTexts(nodes)| == |nodes|
    ensures forall i :: 0 <= i < |nodes| ==> NonEmptyTexts(nodes)[i] == NodeText(nodes[i])
  {
    if |nodes| > 0 {
      NonEmptyTextsKeepsAll(nodes[1..]);
    }
  }

  /** Empty nodes anywhere do not change the decoding. */
  lemma {:induction false} NonEmptyTextsIgnoresEmpty(a: seq<Node>, b: seq<Node>, n: Node)
    requires NodeText(n) == ""
    ensures NonEmptyTexts(a + [n] + b) == NonEmptyTexts(a + b)
  {
    if |a| == 0 {
      assert a + [n] + b == [n] + b;
      assert ([n] + b)[1..] == b;
      assert a + b == b;
    } else {
      NonEmptyTextsIgnoresEmpty(a[1..], b, n);
      assert (a + [n] + b)[0] == a[0];
      assert (a + [n] + b)[1..] == a[1..] + [n] + b;
      assert (a + b)[0] == a[0];
      assert (a + b)[1..] == a[1..] + b;
    }
  }

  /** `format_bsf_object(elem)` on the child nodes of `elem`. */
  function FormatBsfObject(nodes: seq<Node>): (r: Result<Labelled, DecodeError>)
    ensures r.Success? <==> exists i :: 0 <= i < |nodes| && NodeText(nodes[i]) != ""
    ensures r.Success? ==> |NonEmptyTexts(nodes)| > 0 && r.value.caption == NonEmptyTexts(nodes)[0]
    ensures r.Success? ==> r.value.caption != ""
    ensures r.Success? ==> (r.value.content == "" <==> |NonEmptyTexts(nodes)| == 1)
  {
    var texts := NonEmptyTexts(nodes);
    NonEmptyTextsExist(nodes);
    if |texts| == 0 then Failure(NoContent)
    else
      JoinEmpty(texts[1..], "\n");
      Success(Labelled(texts[0], Join(texts[1..], "\n")))
  }

  /** The value splits back, line by line, into the texts after the label,
      provided no text itself spans several lines. */
  lemma ValueLines(nodes: seq<Node>)
    requires |NonEmptyTexts(nodes)| >= 2
    requires forall i :: 0 <= i < |nodes| ==> '\n' !in NodeText(nodes[i])
    ensures FormatBsfObject(nodes).Success?
    ensures Split(FormatBsfObject(nodes).value.content, '\n') == NonEmptyTexts(nodes)[1..]
  {
    var texts := NonEmptyTexts(nodes);
    NoNewlineSurvives(nodes);
    SplitJoin(texts[1..], '\n');
  }

  lemma {:induction false} NoNewlineSurvives(nodes: seq<Node>)
    requires forall i :: 0 <= i < |nodes| ==> '\n' !in NodeText(nodes[i])
    ensures forall i :: 0 <= i < |NonEmptyTexts(nodes)| ==> '\n' !in NonEmptyTexts(nodes)[i]
  {
    if |nodes| > 0 {
      NoNewlineSurvives(nodes[1..]);
    }
  }

  /** A block of one label node and several one-line value nodes decodes to
      that label and those lines. */
  lemma DecodeRoundTrip(caption: string, lines: seq<string>)
    requires caption != "" && '\n' !in caption
    requires |lines| >= 1
    requires forall i :: 0 <= i < |lines| ==> lines[i] != "" && '\n' !in lines[i]
    ensures FormatBsfObject(Encode(caption, lines)).Success?
    ensures FormatBsfObject(Encode(caption, lines)).value.caption == caption
    ensures Split(FormatBsfObject(Encode(caption, lines)).value.content, '\n') == lines
  {
    var nodes := Encode(caption, lines);
    NonEmptyTextsKeepsAll(nodes);
    assert NonEmptyTexts(nodes)[1..] == lines;
    ValueLines(nodes);
  }

  /** Element nodes for a label followed by value lines. */
  function Encode(caption: string, lines: seq<string>): (nodes: seq<Node>)
    ensures |nodes| == |lines| + 1
    ensures NodeText(nodes[0]) == caption
    ensures forall i :: 0 <= i < |lines| ==> NodeText(nodes[i + 1]) == lines[i]
  {
    [Element(caption)] + seq(|lines|, i requires 0 <= i < |lines| => TextNode(lines[i]))
  }
}
