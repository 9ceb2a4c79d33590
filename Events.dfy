/**
 * The event list of a day as generateEventsList builds it from the model's reply: the Markdown
 * fences are removed from the reply text, the decoded records are numbered and titled, and each
 * event carries the prompt that will ask for its story. Also the identifiers of extension cards.
 */
module Events {
  import opened Wrappers
  import opened JsString
  import opened CustomDate

  const JsonFence: string := "```json"
  const Fence: string := "```"

  /** `m` occurs in `s` starting at index `i`. */
  predicate OccursAt(s: string, m: string, i: nat) {
    i + |m| <= |s| && s[i..i + |m|] == m
  }

  predicate NoOccurrence(s: string, m: string) {
    forall i :: 0 <= i < |s| ==> !OccursAt(s, m, i)
  }

  /**
   * `s.replace(/m\n?/g, "")`: scanning from the left, every occurrence of `m` is deleted together
   * with one newline right after it, if there is one; the scan resumes after what was deleted.
   */
  function RemoveMarker(s: string, m: string): (r: string)
    requires m != []
    ensures |r| <= |s|
    decreases |s|
  {
    if |s| < |m| then s
    else if s[..|m|] == m then
      var rest := s[|m|..];
      if rest != [] && rest[0] == '\n' then RemoveMarker(rest[1..], m) else RemoveMarker(rest, m)
    else [s[0]] + RemoveMarker(s[1..], m)
  }

  /** The cleaning of the reply at the top of generateEventsList, before JSON.parse. */
  function StripFences(text: string): string {
    Trim(RemoveMarker(RemoveMarker(text, JsonFence), Fence))
  }

  /** A character where no occurrence of `m` starts is kept as it is. */
  lemma RemoveKeepsHead(s: string, m: string)
    requires m != [] && s != [] && !OccursAt(s, m, 0)
    ensures RemoveMarker(s, m) == [s[0]] + RemoveMarker(s[1..], m)
  {
  }

  /** A prefix in which no occurrence of `m` starts passes through unchanged. */
  lemma {:induction false} RemoveKeepsPrefix(x: string, y: string, m: string)
    requires m != []
    requires forall i :: 0 <= i < |x| ==> !OccursAt(x + y, m, i)
    ensures RemoveMarker(x + y, m) == x + RemoveMarker(y, m)
  {
    if x == [] {
      assert x + y == y;
    } else {
      calc {
        RemoveMarker(x + y, m);
      == { assert !OccursAt(x + y, m, 0); RemoveKeepsHead(x + y, m); }
        [(x + y)[0]] + RemoveMarker((x + y)[1..], m);
      == { assert (x + y)[1..] == x[1..] + y; }
        [x[0]] + RemoveMarker(x[1..] + y, m);
      == { FreeTail(x, y, m); RemoveKeepsPrefix(x[1..], y, m); }
        [x[0]] + (x[1..] + RemoveMarker(y, m));
      == { assert [x[0]] + x[1..] == x; }
        x + RemoveMarker(y, m);
      }
    }
  }

  lemma FreeTail(x: string, y: string, m: string)
    requires x != []
    requires forall i :: 0 <= i < |x| ==> !OccursAt(x + y, m, i)
    ensures forall i :: 0 <= i < |x[1..]| ==> !OccursAt(x[1..] + y, m, i)
  {
    var s := x + y;
    assert s[1..] == x[1..] + y;
    forall i | 0 <= i < |x[1..]|
      ensures !OccursAt(x[1..] + y, m, i)
    {
      assert !OccursAt(s, m, i + 1);
      if i + |m| <= |s[1..]| {
        assert s[1..][i..i + |m|] == s[i + 1..i + 1 + |m|];
      }
    }
  }

  /** A text that does not start with the first character of `m` keeps its first character. */
  lemma HeadKept(s: string, m: string)
    requires m != [] && s != [] && s[0] != m[0]
    ensures RemoveMarker(s, m) != [] && RemoveMarker(s, m)[0] == s[0]
  {
    if |s| >= |m| {
      assert s[..|m|][0] != m[0];
      RemoveKeepsHead(s, m);
    }
  }

  /** A text without any occurrence of `m` is returned unchanged. */
  lemma RemoveNothing(s: string, m: string)
    requires m != [] && NoOccurrence(s, m)
    ensures RemoveMarker(s, m) == s
  {
    assert s + [] == s;
    RemoveKeepsPrefix(s, [], m);
  }

  /** Removing the fences leaves no three backticks in a row, even where deletions join text up. */
  lemma {:induction false} NoFenceAfterRemoval(s: string)
    ensures NoOccurrence(RemoveMarker(s, Fence), Fence)
    decreases |s|
  {
    if |s| < 3 {
      assert RemoveMarker(s, Fence) == s;
    } else if s[..3] == Fence {
      var rest := s[3..];
      if rest != [] && rest[0] == '\n' {
        NoFenceAfterRemoval(rest[1..]);
      } else {
        NoFenceAfterRemoval(rest);
      }
    } else {
      NoFenceAfterRemoval(s[1..]);
      KeptBacktickNoFence(s);
    }
  }

  /**
   * A character kept in front of a fence-free remainder does not complete a fence: a kept
   * backtick is followed by at most one more before a character that is not one.
   */
  lemma KeptBacktickNoFence(s: string)
    requires |s| >= 3 && s[..3] != Fence
    requires NoOccurrence(RemoveMarker(s[1..], Fence), Fence)
    ensures NoOccurrence(RemoveMarker(s, Fence), Fence)
  {
    assert !OccursAt(s, Fence, 0);
    RemoveKeepsHead(s, Fence);
    NoFenceAtStart(s);
    ConsNoFence(s[0], RemoveMarker(s[1..], Fence));
  }

  /** After a kept first character, no fence starts at the beginning of the result. */
  lemma NoFenceAtStart(s: string)
    requires |s| >= 3 && s[..3] != Fence
    ensures !OccursAt(RemoveMarker(s, Fence), Fence, 0)
  {
    var r := RemoveMarker(s, Fence);
    var t := RemoveMarker(s[1..], Fence);
    assert !OccursAt(s, Fence, 0);
    RemoveKeepsHead(s, Fence);
    assert r == [s[0]] + t;
    if s[0] != '`' {
      BreaksFence(r, 0);
    } else if s[1] != '`' {
      HeadKept(s[1..], Fence);
      BreaksFence(r, 1);
    } else {
      assert s[..3][0] == s[0] && s[..3][1] == s[1] && s[..3][2] == s[2];
      assert s[2] != '`';
      SecondKept(s[1..]);
      BreaksFence(r, 2);
    }
  }

  /** A text with a character other than a backtick among its first three starts no fence. */
  lemma BreaksFence(r: string, k: nat)
    requires k < 3 && (k < |r| ==> r[k] != '`')
    ensures !OccursAt(r, Fence, 0)
  {
    if |r| >= 3 {
      assert r[0..3][k] == r[k] && Fence[k] == '`';
    }
  }

  /** A backtick followed by a character that is not one is kept, and so is that character. */
  lemma SecondKept(u: string)
    requires |u| >= 2 && u[0] == '`' && u[1] != '`'
    ensures var v := RemoveMarker(u, Fence); |v| >= 2 && v[0] == u[0] && v[1] == u[1]
  {
    assert !OccursAt(u, Fence, 0) by {
      if |u| >= 3 {
        assert u[0..3][1] == u[1] && Fence[1] == '`';
      }
    }
    RemoveKeepsHead(u, Fence);
    HeadKept(u[1..], Fence);
  }

  /** A character put in front of a fence-free text starts no fence there, so none at all. */
  lemma ConsNoFence(c: char, t: string)
    requires NoOccurrence(t, Fence) && !OccursAt([c] + t, Fence, 0)
    ensures NoOccurrence([c] + t, Fence)
  {
    var r := [c] + t;
    forall i | 0 < i < |r|
      ensures !OccursAt(r, Fence, i)
    {
      if i + 3 <= |r| {
        assert r[i..i + 3] == t[i - 1..i + 2];
        assert !OccursAt(t, Fence, i - 1);
      }
    }
  }

  /** An occurrence of "```json" begins with an occurrence of "```". */
  lemma JsonFenceIsFence(s: string, i: nat)
    requires OccursAt(s, JsonFence, i)
    ensures OccursAt(s, Fence, i)
  {
    assert s[i..i + 3] == s[i..i + 7][..3];
  }

  /** After stripping, no fence is left anywhere in the text handed to JSON.parse. */
  lemma StrippedHasNoFence(text: string)
    ensures NoOccurrence(StripFences(text), Fence)
  {
    NoFenceAfterRemoval(RemoveMarker(text, JsonFence));
    TrimKeepsNoOccurrence(RemoveMarker(RemoveMarker(text, JsonFence), Fence), Fence);
  }

  lemma TrimKeepsNoOccurrence(u: string, m: string)
    requires NoOccurrence(u, m)
    ensures NoOccurrence(Trim(u), m)
  {
    TrimStrips(u);
    var i := LeadingWhite(u);
    NoOccurrenceInSlice(u, m, i, i + |Trim(u)|);
  }

  lemma NoOccurrenceInSlice(u: string, m: string, lo: nat, hi: nat)
    requires lo <= hi <= |u| && NoOccurrence(u, m)
    ensures NoOccurrence(u[lo..hi], m)
  {
    var r := u[lo..hi];
    forall j | 0 <= j < |r|
      ensures !OccursAt(r, m, j)
    {
      if j + |m| <= |r| {
        var a, b := r[j..j + |m|], u[lo + j..lo + j + |m|];
        forall t | 0 <= t < |m|
          ensures a[t] == b[t]
        {
        }
        assert a == b;
        assert !OccursAt(u, m, lo + j);
      }
    }
  }

  /** A reply without fences is only trimmed. */
  lemma UnfencedOnlyTrimmed(text: string)
    requires NoOccurrence(text, Fence)
    ensures StripFences(text) == Trim(text)
  {
    forall i | 0 <= i < |text|
      ensures !OccursAt(text, JsonFence, i)
    {
      if OccursAt(text, JsonFence, i) {
        JsonFenceIsFence(text, i);
      }
    }
    RemoveNothing(text, JsonFence);
    RemoveNothing(text, Fence);
  }

  /** A reply wrapped in a "```json" code block yields the trimmed block body. */
  lemma FencedBlockUnwrapped(body: string)
    requires NoOccurrence(body, Fence)
    ensures StripFences(JsonFence + "\n" + body + "\n" + Fence) == Trim(body)
  {
    var tail := "\n" + Fence;
    var s := JsonFence + "\n" + body + "\n" + Fence;
    assert s == JsonFence + "\n" + body + tail;
    BodyFreeOfFences(body, tail);
    JsonPass(body, tail);
    var u1 := RemoveMarker(s, JsonFence);
    assert u1 == body + tail;
    FencePass(body, tail);
    var u2 := RemoveMarker(u1, Fence);
    assert u2 == body + "\n";
    assert AllWhite("\n");
    TrimIgnoresWhiteSuffix(body, "\n");
  }

  lemma JsonPass(body: string, tail: string)
    requires tail == "\n" + Fence
    requires forall i :: 0 <= i < |body| ==> !OccursAt(body + tail, JsonFence, i)
    ensures RemoveMarker(JsonFence + "\n" + body + tail, JsonFence) == body + tail
  {
    var s := JsonFence + "\n" + body + tail;
    assert s[..7] == JsonFence;
    assert s[7..] == "\n" + (body + tail);
    assert s[7..][1..] == body + tail;
    RemoveKeepsPrefix(body, tail, JsonFence);
    assert RemoveMarker(tail, JsonFence) == tail;
  }

  lemma FencePass(body: string, tail: string)
    requires tail == "\n" + Fence
    requires forall i :: 0 <= i < |body| ==> !OccursAt(body + tail, Fence, i)
    ensures RemoveMarker(body + tail, Fence) == body + "\n"
  {
    RemoveKeepsPrefix(body, tail, Fence);
    assert RemoveMarker(tail, Fence) == "\n" by {
      assert tail[0] == '\n' && tail[..3][0] == '\n';
      RemoveKeepsHead(tail, Fence);
      assert tail[1..] == Fence;
      assert Fence[..3] == Fence && Fence[3..] == [];
    }
  }

  /** Positions of `body` never start a fence once a newline and a fence follow it. */
  lemma BodyFreeOfFences(body: string, tail: string)
    requires NoOccurrence(body, Fence) && tail == "\n" + Fence
    ensures forall i :: 0 <= i < |body| ==> !OccursAt(body + tail, Fence, i)
    ensures forall i :: 0 <= i < |body| ==> !OccursAt(body + tail, JsonFence, i)
  {
    var s := body + tail;
    forall i | 0 <= i < |body|
      ensures !OccursAt(s, Fence, i)
    {
      if i + 3 <= |body| {
        assert s[i..i + 3] == body[i..i + 3];
        assert !OccursAt(body, Fence, i);
      } else if i + 3 <= |s| {
        assert s[|body|] == '\n';
        assert s[i..i + 3][|body| - i] == '\n';
      }
    }
    forall i | 0 <= i < |body|
      ensures !OccursAt(s, JsonFence, i)
    {
      if OccursAt(s, JsonFence, i) {
        JsonFenceIsFence(s, i);
      }
    }
  }

  /** One record of the array the reply decodes to. */
  datatype RawEvent = RawEvent(year: int, title: string, emoji: string, category: string, description: string)

  /** The prompts the component sends, by what they are built from; their wording is not modelled. */
  datatype Prompt =
    | EventListPrompt(dateStr: string)
    | EventStoryPrompt(year: int, dateStr: string, title: string)
    | ExtensionPrompt(extensionText: string)

  /** An entry of mainEvents. */
  datatype Event = Event(id: string, title: string, emoji: string, category: string, description: string, prompt: Prompt)

  /** The id of the event at (0-based) position `index`: "event1", "event2", ... */
  function EventId(index: nat): string {
    "event" + NatToString(index + 1)
  }

  /** The displayed title: "1969年 - 阿波罗11号登月". */
  function EventTitle(year: int, title: string): string {
    IntToString(year) + "年 - " + title
  }

  function ShapeEvent(raw: RawEvent, index: nat, dateStr: string): Event {
    Event(EventId(index), EventTitle(raw.year, raw.title), raw.emoji, raw.category, raw.description,
          EventStoryPrompt(raw.year, dateStr, raw.title))
  }

  /** The `events.map` of generateEventsList; the number of records is not checked. */
  function ShapeEvents(raws: seq<RawEvent>, dateStr: string): (events: seq<Event>)
    ensures |events| == |raws|
  {
    seq(|raws|, i requires 0 <= i < |raws| => ShapeEvent(raws[i], i, dateStr))
  }

  /**
   * Shaping keeps count and order: the i-th record becomes the i-th event, numbered i + 1, with
   * the year prefixed to its title and emoji, category and description copied unchanged.
   */
  lemma ShapedEventAt(raws: seq<RawEvent>, dateStr: string, i: nat)
    requires i < |raws|
    ensures var e := ShapeEvents(raws, dateStr)[i];
      && e.id == "event" + NatToString(i + 1)
      && e.title == IntToString(raws[i].year) + "年 - " + raws[i].title
      && e.emoji == raws[i].emoji && e.category == raws[i].category && e.description == raws[i].description
      && e.prompt == EventStoryPrompt(raws[i].year, dateStr, raws[i].title)
  {
  }

  /** Different positions get different ids. */
  lemma EventIdInjective(i: nat, j: nat)
    requires EventId(i) == EventId(j)
    ensures i == j
  {
    var a, b := NatToString(i + 1), NatToString(j + 1);
    assert a == EventId(i)[5..];
    assert b == EventId(j)[5..];
    NatToStringInjective(i + 1, j + 1);
  }

  /** The ids of a shaped list are pairwise distinct. */
  lemma ShapedIdsDistinct(raws: seq<RawEvent>, dateStr: string, i: nat, j: nat)
    requires i < |raws| && j < |raws| && i != j
    ensures ShapeEvents(raws, dateStr)[i].id != ShapeEvents(raws, dateStr)[j].id
  {
    if EventId(i) == EventId(j) {
      EventIdInjective(i, j);
    }
  }

  /** The year and the record's title can be read back from the displayed title. */
  lemma EventTitleInjective(y1: int, t1: string, y2: int, t2: string)
    requires EventTitle(y1, t1) == EventTitle(y2, t2)
    ensures y1 == y2 && t1 == t2
  {
    var a, b := IntToString(y1), IntToString(y2);
    NoYearMark(y1);
    NoYearMark(y2);
    assert EventTitle(y1, t1) == a + ['年'] + (" - " + t1);
    assert EventTitle(y2, t2) == b + ['年'] + (" - " + t2);
    SplitAtMarker(a, " - " + t1, b, " - " + t2, '年');
    assert t1 == (" - " + t1)[3..];
    assert t2 == (" - " + t2)[3..];
    ParseIntRoundTrip(y1);
    ParseIntRoundTrip(y2);
  }

  lemma NoYearMark(y: int)
    ensures '年' !in IntToString(y)
  {
    var s := IntToString(y);
    forall k | 0 <= k < |s|
      ensures s[k] != '年'
    {
      if y < 0 && k > 0 {
        assert s[k] == NatToString(-y)[k - 1];
      } else if y >= 0 {
        assert s[k] == NatToString(y)[k];
      }
    }
  }

  /**
   * `Array.prototype.find` on the ids: the first event with the given id, or None when no event
   * has it.
   */
  function FindEvent(events: seq<Event>, id: string): (r: Option<nat>)
    ensures r.Some? ==> r.value < |events| && events[r.value].id == id
    ensures r.Some? ==> forall j :: 0 <= j < r.value ==> events[j].id != id
    ensures r.None? ==> forall j :: 0 <= j < |events| ==> events[j].id != id
  {
    if events == [] then None
    else if events[0].id == id then Some(0)
    else
      match FindEvent(events[1..], id)
      case None => None
      case Some(k) => Some(k + 1)
  }

  /** Looking up the id of the i-th shaped event finds exactly that event. */
  lemma FindShapedEvent(raws: seq<RawEvent>, dateStr: string, i: nat)
    requires i < |raws|
    ensures FindEvent(ShapeEvents(raws, dateStr), EventId(i)) == Some(i)
  {
    var events := ShapeEvents(raws, dateStr);
    forall j | 0 <= j < i
      ensures events[j].id != EventId(i)
    {
      EventIdsDiffer(j, i);
    }
    FindFirst(events, EventId(i), i);
  }

  lemma EventIdsDiffer(i: nat, j: nat)
    requires i != j
    ensures EventId(i) != EventId(j)
  {
    if EventId(i) == EventId(j) {
      EventIdInjective(i, j);
    }
  }

  /** find stops at the first match. */
  lemma {:induction false} FindFirst(events: seq<Event>, id: string, i: nat)
    requires i < |events| && events[i].id == id
    requires forall j :: 0 <= j < i ==> events[j].id != id
    ensures FindEvent(events, id) == Some(i)
  {
    if i > 0 {
      var tail := events[1..];
      forall j | 0 <= j < i - 1
        ensures tail[j].id != id
      {
        assert tail[j] == events[j + 1];
      }
      FindFirst(tail, id, i - 1);
    }
  }

  /** `${parentId}_ext${index}`: the id of the index-th extension offered on the card parentId. */
  function ExtensionId(parentId: string, index: nat): string {
    parentId + "_ext" + NatToString(index)
  }

  /** Distinct (card, index) pairs give distinct extension ids: the trailing digits are the index. */
  lemma ExtensionIdInjective(p: string, i: nat, q: string, j: nat)
    requires ExtensionId(p, i) == ExtensionId(q, j)
    ensures p == q && i == j
  {
    var s := ExtensionId(p, i);
    var a, b := NatToString(i), NatToString(j);
    assert s == (p + "_ext") + a;
    assert s == (q + "_ext") + b;
    DigitsAfterMark(p + "_ext", a, q + "_ext", b);
    DigitsAfterMark(q + "_ext", b, p + "_ext", a);
    SameSuffix(p + "_ext", a, q + "_ext", b);
    assert p == (p + "_ext")[..|p|];
    assert q == (q + "_ext")[..|q|];
    NatToStringInjective(i, j);
  }

  /** A digit string after a non-digit cannot be shorter than a digit string ending the same text. */
  lemma DigitsAfterMark(x: string, a: string, y: string, b: string)
    requires x + a == y + b && |x| > 0 && !IsDecimalDigit(x[|x| - 1])
    requires AllDecimal(a) && AllDecimal(b)
    ensures |b| <= |a|
  {
    var s := x + a;
    assert forall k :: |y| <= k < |s| ==> s[k] == b[k - |y|];
    assert s[|x| - 1] == x[|x| - 1];
  }

  lemma SameSuffix(x: string, a: string, y: string, b: string)
    requires x + a == y + b && |a| == |b|
    ensures x == y && a == b
  {
    var s := x + a;
    assert x == s[..|x|];
    assert y == s[..|y|];
    assert a == s[|x|..];
    assert b == s[|y|..];
  }

  /** An extension id always holds a '_', an event id never does: they cannot collide. */
  lemma ExtensionIdIsNoEventId(parentId: string, index: nat, j: nat)
    ensures ExtensionId(parentId, index) != EventId(j)
  {
    var e := EventId(j);
    assert ExtensionId(parentId, index)[|parentId|] == '_';
    forall k | 0 <= k < |e|
      ensures e[k] != '_'
    {
      if k >= 5 {
        assert e[k] == NatToString(j + 1)[k - 5];
      }
    }
  }

  /** No extension id is found among shaped events. */
  lemma ExtensionIdNotFound(raws: seq<RawEvent>, dateStr: string, parentId: string, index: nat)
    ensures FindEvent(ShapeEvents(raws, dateStr), ExtensionId(parentId, index)).None?
  {
    var events := ShapeEvents(raws, dateStr);
    var r := FindEvent(events, ExtensionId(parentId, index));
    if r.Some? {
      assert events[r.value].id == EventId(r.value);
      ExtensionIdIsNoEventId(parentId, index, r.value);
    }
  }
}
