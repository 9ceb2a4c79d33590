/**
 * Extraction of the "exploration anchors" from a generated narrative (parseExtensions): the
 * trimmed lines that start with one of the three marker glyphs, in order, at most three.
 */
module Exploration {
  import opened JsString

  const ConceptMarker: string := "💭"
  const CrossDomainMarker: string := "🔗"
  const ApplicationMarker: string := "✨"

  /** The number of anchors a card offers at most. */
  const MaxAnchors: nat := 3

  predicate IsAnchorLine(line: string) {
    StartsWith(line, ConceptMarker) || StartsWith(line, CrossDomainMarker) || StartsWith(line, ApplicationMarker)
  }

  /** The trimmed lines that qualify as anchors, in the order they appear. */
  function QualifyingLines(lines: seq<string>): (q: seq<string>)
  {
    if lines == [] then []
    else
      var line := Trim(lines[|lines| - 1]);
      QualifyingLines(lines[..|lines| - 1]) + (if IsAnchorLine(line) then [line] else [])
  }

  /** What parseExtensions returns for a generated text. */
  function Anchors(content: string): (r: seq<string>)
    ensures |r| <= MaxAnchors
  {
    FirstAnchors(QualifyingLines(Split(content, '\n')))
  }

  /** The first three of the qualifying lines, or all of them when there are fewer. */
  function FirstAnchors(q: seq<string>): (r: seq<string>)
    ensures |r| <= MaxAnchors
  {
    if |q| <= MaxAnchors then q else q[..MaxAnchors]
  }

  lemma FirstAnchorsAt(q: seq<string>, i: nat)
    requires i < |q| && i < MaxAnchors
    ensures i < |FirstAnchors(q)| && FirstAnchors(q)[i] == q[i]
  {
  }

  /** Every anchor is a trimmed line that starts with one of the marker glyphs. */
  lemma AnchorsAreMarkedLines(content: string)
    ensures forall k :: 0 <= k < |Anchors(content)| ==> IsAnchorLine(Anchors(content)[k]) && IsTrimmed(Anchors(content)[k])
  {
    QualifyingAreMarked(Split(content, '\n'));
    FirstAnchorsMarked(QualifyingLines(Split(content, '\n')));
  }

  lemma FirstAnchorsMarked(q: seq<string>)
    requires forall k :: 0 <= k < |q| ==> IsAnchorLine(q[k]) && IsTrimmed(q[k])
    ensures forall k :: 0 <= k < |FirstAnchors(q)| ==> IsAnchorLine(FirstAnchors(q)[k]) && IsTrimmed(FirstAnchors(q)[k])
  {
    forall k | 0 <= k < |FirstAnchors(q)|
      ensures IsAnchorLine(FirstAnchors(q)[k]) && IsTrimmed(FirstAnchors(q)[k])
    {
      FirstAnchorsAt(q, k);
    }
  }

  lemma {:induction false} QualifyingAreMarked(lines: seq<string>)
    ensures forall k :: 0 <= k < |QualifyingLines(lines)| ==> IsAnchorLine(QualifyingLines(lines)[k]) && IsTrimmed(QualifyingLines(lines)[k])
  {
    if lines != [] {
      QualifyingAreMarked(lines[..|lines| - 1]);
    }
  }

  /** A line without white characters at its ends is left as it is by trim. */
  lemma TrimmedIsFixed(s: string)
    requires IsTrimmed(s)
    ensures Trim(s) == s
  {
    assert StrippedAt(s, s, 0) by {
      assert s[0..|s|] == s;
    }
    TrimUnique(s, s, 0);
  }

  /** parseExtensions: the loop over the lines of the text, then the first three. */
  method ParseExtensions(content: string) returns (extensions: seq<string>)
    ensures extensions == Anchors(content)
  {
    var lines := Split(content, '\n');
    extensions := [];
    for i := 0 to |lines|
      invariant extensions == QualifyingLines(lines[..i])
    {
      var line := Trim(lines[i]);
      QualifyingStep(lines, i);
      if IsAnchorLine(line) {
        extensions := extensions + [line];
      }
    }
    assert lines[..|lines|] == lines;
    TakeFirstAnchors(content, extensions);
    if |extensions| > MaxAnchors {
      extensions := extensions[..MaxAnchors];
    }
  }

  lemma QualifyingStep(lines: seq<string>, i: nat)
    requires i < |lines|
    ensures QualifyingLines(lines[..i + 1]) ==
      QualifyingLines(lines[..i]) + (if IsAnchorLine(Trim(lines[i])) then [Trim(lines[i])] else [])
  {
    assert lines[..i + 1][..i] == lines[..i];
  }

  lemma TakeFirstAnchors(content: string, q: seq<string>)
    requires q == QualifyingLines(Split(content, '\n'))
    ensures Anchors(content) == if |q| <= MaxAnchors then q else q[..MaxAnchors]
  {
  }

  /** Qualifying lines keep their order of appearance: those of a block of lines come after those of the lines before it. */
  lemma {:induction false} QualifyingAppend(a: seq<string>, b: seq<string>)
    ensures QualifyingLines(a + b) == QualifyingLines(a) + QualifyingLines(b)
  {
    if b != [] {
      var init := b[..|b| - 1];
      QualifyingAppend(a, init);
      assert (a + b)[..|a + b| - 1] == a + init;
      assert (a + b)[|a + b| - 1] == b[|b| - 1];
    } else {
      assert a + b == a;
    }
  }

  /**
   * None is skipped: a line that qualifies, with fewer than three qualifying lines before it,
   * is among the anchors, at the position its rank gives.
   */
  lemma AnchorsNoneSkipped(content: string, k: nat)
    requires k < |Split(content, '\n')|
    requires IsAnchorLine(Trim(Split(content, '\n')[k]))
    requires |QualifyingLines(Split(content, '\n')[..k])| < MaxAnchors
    ensures var rank := |QualifyingLines(Split(content, '\n')[..k])|;
      rank < |Anchors(content)| && Anchors(content)[rank] == Trim(Split(content, '\n')[k])
  {
    var lines := Split(content, '\n');
    QualifyingAt(lines, k);
    FirstAnchorsAt(QualifyingLines(lines), |QualifyingLines(lines[..k])|);
  }

  /** The qualifying lines around a qualifying line at index k. */
  lemma QualifyingAt(lines: seq<string>, k: nat)
    requires k < |lines| && IsAnchorLine(Trim(lines[k]))
    ensures QualifyingLines(lines) == QualifyingLines(lines[..k]) + [Trim(lines[k])] + QualifyingLines(lines[k + 1..])
  {
    var before, after := lines[..k], lines[k + 1..];
    SplitAround(lines, k);
    QualifyingAppend(before + [lines[k]], after);
    QualifyingSnoc(before, lines[k]);
  }

  lemma SplitAround<T>(s: seq<T>, k: nat)
    requires k < |s|
    ensures s == s[..k] + [s[k]] + s[k + 1..]
  {
  }

  lemma QualifyingSnoc(lines: seq<string>, line: string)
    ensures QualifyingLines(lines + [line]) ==
      QualifyingLines(lines) + (if IsAnchorLine(Trim(line)) then [Trim(line)] else [])
  {
    assert (lines + [line])[..|lines|] == lines;
  }

  /** Every anchor is one of the text's lines, trimmed. */
  lemma AnchorsComeFromLines(content: string, j: nat)
    requires j < |Anchors(content)|
    ensures exists k :: 0 <= k < |Split(content, '\n')| && Anchors(content)[j] == Trim(Split(content, '\n')[k])
  {
    var lines := Split(content, '\n');
    var k := QualifyingFromLines(lines, j);
  }

  lemma {:induction false} QualifyingFromLines(lines: seq<string>, j: nat) returns (k: nat)
    requires j < |QualifyingLines(lines)|
    ensures k < |lines| && QualifyingLines(lines)[j] == Trim(lines[k])
  {
    var init := lines[..|lines| - 1];
    var q := QualifyingLines(init);
    if j < |q| {
      k := QualifyingFromLines(init, j);
      assert lines[k] == init[k];
    } else {
      k := |lines| - 1;
    }
  }

  /**
   * The footer the generation prompts ask for yields exactly its three anchor lines, whatever
   * narrative comes before it, as long as no narrative line itself starts with a marker glyph.
   */
  lemma FooterYieldsAnchors(narrative: seq<string>, heading: string, concept: string, crossDomain: string, application: string)
    requires forall k :: 0 <= k < |narrative| ==> '\n' !in narrative[k] && !IsAnchorLine(Trim(narrative[k]))
    requires '\n' !in heading && !IsAnchorLine(Trim(heading))
    requires StartsWith(concept, ConceptMarker) && IsTrimmed(concept) && '\n' !in concept
    requires StartsWith(crossDomain, CrossDomainMarker) && IsTrimmed(crossDomain) && '\n' !in crossDomain
    requires StartsWith(application, ApplicationMarker) && IsTrimmed(application) && '\n' !in application
    ensures Anchors(Join(narrative + [heading, concept, crossDomain, application], '\n')) == [concept, crossDomain, application]
  {
    NoQualifying(narrative);
    TrimmedIsFixed(concept);
    TrimmedIsFixed(crossDomain);
    TrimmedIsFixed(application);
    FooterQualifying(narrative, heading, concept, crossDomain, application);
    FooterLinesSplit(narrative, heading, concept, crossDomain, application);
  }

  lemma FooterQualifying(narrative: seq<string>, heading: string, concept: string, crossDomain: string, application: string)
    requires QualifyingLines(narrative) == [] && !IsAnchorLine(Trim(heading))
    requires IsAnchorLine(concept) && Trim(concept) == concept
    requires IsAnchorLine(crossDomain) && Trim(crossDomain) == crossDomain
    requires IsAnchorLine(application) && Trim(application) == application
    ensures QualifyingLines(narrative + [heading, concept, crossDomain, application]) == [concept, crossDomain, application]
  {
    var l1 := narrative + [heading];
    var l2 := l1 + [concept];
    var l3 := l2 + [crossDomain];
    AppendFour(narrative, heading, concept, crossDomain, application);
    QualifyingSnoc(narrative, heading);
    assert QualifyingLines(l1) == [];
    QualifyingSnoc(l1, concept);
    assert QualifyingLines(l2) == [concept];
    QualifyingSnoc(l2, crossDomain);
    assert QualifyingLines(l3) == [concept, crossDomain];
    QualifyingSnoc(l3, application);
  }

  lemma FooterLinesSplit(narrative: seq<string>, heading: string, concept: string, crossDomain: string, application: string)
    requires forall k :: 0 <= k < |narrative| ==> '\n' !in narrative[k]
    requires '\n' !in heading && '\n' !in concept && '\n' !in crossDomain && '\n' !in application
    ensures var lines := narrative + [heading, concept, crossDomain, application];
      Split(Join(lines, '\n'), '\n') == lines
  {
    var footer := [heading, concept, crossDomain, application];
    assert forall k :: 0 <= k < |footer| ==> '\n' !in footer[k] by {
      forall k | 0 <= k < |footer|
        ensures '\n' !in footer[k]
      {
        if k == 0 { assert footer[k] == heading; }
        else if k == 1 { assert footer[k] == concept; }
        else if k == 2 { assert footer[k] == crossDomain; }
        else { assert footer[k] == application; }
      }
    }
    LinesWithoutBreaks(narrative, footer);
    SplitJoin(narrative + footer, '\n');
  }

  /** A step about concatenation only, kept as a lemma of its own so the proofs using it stay cheap. */
  lemma AppendFour<T>(s: seq<T>, a: T, b: T, c: T, d: T)
    ensures s + [a, b, c, d] == s + [a] + [b] + [c] + [d]
  {
  }

  lemma LinesWithoutBreaks(a: seq<string>, b: seq<string>)
    requires forall k :: 0 <= k < |a| ==> '\n' !in a[k]
    requires forall k :: 0 <= k < |b| ==> '\n' !in b[k]
    ensures forall k :: 0 <= k < |a + b| ==> '\n' !in (a + b)[k]
  {
    forall k | 0 <= k < |a + b|
      ensures '\n' !in (a + b)[k]
    {
      if k < |a| {
        assert (a + b)[k] == a[k];
      } else {
        assert (a + b)[k] == b[k - |a|];
      }
    }
  }

  lemma {:induction false} NoQualifying(lines: seq<string>)
    requires forall k :: 0 <= k < |lines| ==> !IsAnchorLine(Trim(lines[k]))
    ensures QualifyingLines(lines) == []
  {
    if lines != [] {
      NoQualifying(lines[..|lines| - 1]);
    }
  }
}
