/**
 * The text that "复制全部内容" copies (exportAllContent): a header naming the date and the time of
 * export, then one block per generated text in the order they were generated.
 */
module Export {
  import opened Wrappers
  import opened JsString
  import opened CustomDate
  import opened Events

  /** An entry of allGeneratedContent: the id a text was generated for, and the text. */
  datatype LogEntry = LogEntry(id: string, content: string)

  /** The date shown when no date has been selected. */
  const UnknownDate: string := "未知日期"

  /** The width of the rules under the header and under every block. */
  const RuleWidth: nat := 50

  function DateLabel(selected: Option<MonthDay>): string {
    if selected.Some? then FormatDate(selected.value) else UnknownDate
  }

  /** The first three lines and the blank line after them; the timestamp is a parameter. */
  function Header(dateStr: string, timestamp: string): string {
    "✨ Luna的历史探索记录 - " + dateStr + " ✨\n" + "生成时间: " + timestamp + "\n" + Repeat('=', RuleWidth) + "\n\n"
  }

  /**
   * The heading of the entry at (0-based) log position `index`: the category and title of the
   * main event with that id, or a numbered "拓展内容" for anything else.
   */
  function Label(entry: LogEntry, index: nat, mainEvents: seq<Event>): string {
    match FindEvent(mainEvents, entry.id)
    case Some(j) => "【" + mainEvents[j].category + "】" + mainEvents[j].title
    case None => "【拓展内容 #" + NatToString(index + 1) + "】"
  }

  function Block(heading: string, content: string): string {
    heading + "\n\n" + content + "\n\n" + Repeat('-', RuleWidth) + "\n\n"
  }

  /** The block of the log entry at (0-based) log position `index`. */
  function EntryBlock(entry: LogEntry, index: nat, mainEvents: seq<Event>): string {
    Block(Label(entry, index, mainEvents), entry.content)
  }

  /** The blocks of consecutive log entries, the first of which is at log position `start`. */
  function BlockList(entries: seq<LogEntry>, start: nat, mainEvents: seq<Event>): (blocks: seq<string>)
    ensures |blocks| == |entries|
  {
    seq(|entries|, k requires 0 <= k < |entries| => EntryBlock(entries[k], start + k, mainEvents))
  }

  /** The strings of a sequence, one after another. */
  function Concat(parts: seq<string>): string {
    if parts == [] then "" else Concat(parts[..|parts| - 1]) + parts[|parts| - 1]
  }

  function Blocks(entries: seq<LogEntry>, start: nat, mainEvents: seq<Event>): string {
    Concat(BlockList(entries, start, mainEvents))
  }

  /** The reference definition of the exported text. */
  function ExportText(selected: Option<MonthDay>, timestamp: string, log: seq<LogEntry>, mainEvents: seq<Event>): string {
    Header(DateLabel(selected), timestamp) + Blocks(log, 0, mainEvents)
  }

  lemma {:induction false} ConcatAppend(x: seq<string>, y: seq<string>)
    ensures Concat(x + y) == Concat(x) + Concat(y)
  {
    if y == [] {
      assert x + y == x;
    } else {
      var init, last := y[..|y| - 1], y[|y| - 1];
      assert (x + y)[..|x + y| - 1] == x + init;
      assert (x + y)[|x + y| - 1] == last;
      ConcatAppend(x, init);
      Associative(Concat(x), Concat(init), last);
    }
  }

  lemma BlockListAppend(a: seq<LogEntry>, b: seq<LogEntry>, start: nat, mid: nat, mainEvents: seq<Event>)
    requires mid == start + |a|
    ensures BlockList(a + b, start, mainEvents) == BlockList(a, start, mainEvents) + BlockList(b, mid, mainEvents)
  {
    var whole, left, right := BlockList(a + b, start, mainEvents), BlockList(a, start, mainEvents), BlockList(b, mid, mainEvents);
    forall k | 0 <= k < |whole|
      ensures whole[k] == (left + right)[k]
    {
      if k < |a| {
        assert (a + b)[k] == a[k];
      } else {
        assert (a + b)[k] == b[k - |a|];
      }
    }
  }

  /** The blocks of two consecutive runs of entries are the blocks of the first run, then those of the second. */
  lemma BlocksAppend(a: seq<LogEntry>, b: seq<LogEntry>, start: nat, mid: nat, mainEvents: seq<Event>)
    requires mid == start + |a|
    ensures Blocks(a + b, start, mainEvents) == Blocks(a, start, mainEvents) + Blocks(b, mid, mainEvents)
  {
    BlockListAppend(a, b, start, mid, mainEvents);
    ConcatAppend(BlockList(a, start, mainEvents), BlockList(b, mid, mainEvents));
  }

  /**
   * The export lists the log in order: the export of a longer log is the export of its prefix
   * followed by the blocks of the remaining entries, numbered from where the prefix ends.
   */
  lemma ExportExtends(selected: Option<MonthDay>, timestamp: string, log: seq<LogEntry>, more: seq<LogEntry>, mainEvents: seq<Event>)
    ensures ExportText(selected, timestamp, log + more, mainEvents) ==
      ExportText(selected, timestamp, log, mainEvents) + Blocks(more, |log|, mainEvents)
  {
    BlocksAppend(log, more, 0, |log|, mainEvents);
    PrefixMoves(Header(DateLabel(selected), timestamp), Blocks(log, 0, mainEvents), Blocks(more, |log|, mainEvents), Blocks(log + more, 0, mainEvents));
  }

  /** A step about concatenation only, kept as a lemma of its own so the proofs using it stay cheap. */
  lemma PrefixMoves(h: string, x: string, y: string, z: string)
    requires z == x + y
    ensures h + z == (h + x) + y
  {
  }

  /** A step about concatenation only, kept as a lemma of its own so the proofs using it stay cheap. */
  lemma Associative(x: string, y: string, z: string)
    ensures x + (y + z) == (x + y) + z
  {
  }

  /** One more log entry adds exactly one block, labelled for its position, at the end. */
  lemma ExportGrowsByOneBlock(selected: Option<MonthDay>, timestamp: string, log: seq<LogEntry>, entry: LogEntry, mainEvents: seq<Event>)
    ensures ExportText(selected, timestamp, log + [entry], mainEvents) ==
      ExportText(selected, timestamp, log, mainEvents) + Block(Label(entry, |log|, mainEvents), entry.content)
  {
    ExportExtends(selected, timestamp, log, [entry], mainEvents);
    SingleBlock(entry, |log|, mainEvents);
  }

  lemma SingleBlock(entry: LogEntry, index: nat, mainEvents: seq<Event>)
    ensures Blocks([entry], index, mainEvents) == EntryBlock(entry, index, mainEvents)
  {
    var single := BlockList([entry], index, mainEvents);
    var block := EntryBlock(entry, index, mainEvents);
    assert single[..0] == [] && single[0] == block;
    assert Concat(single) == Concat([]) + block;
    assert [] + block == block;
  }

  /** The story of the i-th main event is headed with that event's category and displayed title. */
  lemma EventEntryLabel(raws: seq<RawEvent>, dateStr: string, i: nat, content: string, index: nat)
    requires i < |raws|
    ensures Label(LogEntry(EventId(i), content), index, ShapeEvents(raws, dateStr)) ==
      "【" + raws[i].category + "】" + EventTitle(raws[i].year, raws[i].title)
  {
    var events := ShapeEvents(raws, dateStr);
    FindShapedEvent(raws, dateStr, i);
    assert events[i].category == raws[i].category && events[i].title == EventTitle(raws[i].year, raws[i].title);
  }

  /** An extension's text is headed "【拓展内容 #k】", k its 1-based position in the log. */
  lemma ExtensionEntryLabel(raws: seq<RawEvent>, dateStr: string, parentId: string, k: nat, content: string, index: nat)
    ensures Label(LogEntry(ExtensionId(parentId, k), content), index, ShapeEvents(raws, dateStr)) ==
      "【拓展内容 #" + NatToString(index + 1) + "】"
  {
    ExtensionIdNotFound(raws, dateStr, parentId, k);
  }
}
