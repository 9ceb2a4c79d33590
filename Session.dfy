/**
 * The state of the HistoryExplorer component and its handlers, with the network calls cut out:
 * a handler that sends a prompt returns it as a request, and the reply arrives later through
 * FinishEventList or CompleteGeneration with success or failure.
 */
module Session {
  import opened Wrappers
  import opened JsString
  import opened CustomDate
  import opened Events
  import opened Cards
  import opened Export

  datatype View = Cover | MainView

  /** A generation started by a click: the id the text will be stored under, and the prompt sent. */
  datatype Request = Request(id: string, prompt: Prompt)

  /** The title of the list card of a date: "7月20日的历史事件". */
  function MainCardTitle(date: MonthDay): string {
    FormatDate(date) + "的历史事件"
  }

  /** What generateContent returns when the request fails. */
  function Apology(message: string): string {
    "喵呜...看起来遇到了一点小问题 (´•ω•̥`) \n\n" + message + "\n\n请稍后再试试喵～"
  }

  /** The content map that storing the texts of a log one after the other leaves behind. */
  function CacheOf(log: seq<LogEntry>): map<string, string> {
    if log == [] then map[]
    else CacheOf(log[..|log| - 1])[log[|log| - 1].id := log[|log| - 1].content]
  }

  /**
   * The content stored for an id is the text of its latest log entry, and an id has content
   * stored exactly when some log entry is for it.
   */
  lemma {:induction false} CacheIsLastWrite(log: seq<LogEntry>, id: string)
    ensures id in CacheOf(log) <==> exists k :: 0 <= k < |log| && log[k].id == id
    ensures id in CacheOf(log) ==>
      exists k :: 0 <= k < |log| && log[k].id == id && CacheOf(log)[id] == log[k].content &&
        forall j :: k < j < |log| ==> log[j].id != id
  {
    if log != [] {
      var init, last := log[..|log| - 1], log[|log| - 1];
      CacheIsLastWrite(init, id);
      if last.id == id {
        assert log[|log| - 1].id == id;
      } else {
        forall k | 0 <= k < |log| && log[k].id == id
          ensures k < |init| && init[k].id == id
        {
          assert k != |log| - 1;
          assert init[k] == log[k];
        }
        if id in CacheOf(init) {
          var k :| 0 <= k < |init| && init[k].id == id && CacheOf(init)[id] == init[k].content &&
            forall j :: k < j < |init| ==> init[j].id != id;
          assert log[k] == init[k];
          forall j | k < j < |log|
            ensures log[j].id != id
          {
            if j < |init| {
              assert log[j] == init[j];
            }
          }
        }
      }
    }
  }

  lemma CacheOfAppend(log: seq<LogEntry>, entry: LogEntry)
    ensures CacheOf(log + [entry]) == CacheOf(log)[entry.id := entry.content]
  {
    assert (log + [entry])[..|log|] == log;
  }

  class HistorySession {
    var currentView: View
    var selectedDate: Option<MonthDay>
    var mainEvents: seq<Event>
    var cards: seq<Card>
    var currentCardIndex: nat
    var expandedContent: map<string, string>
    var loadingStates: map<string, bool>
    var allGeneratedContent: seq<LogEntry>
    var isGeneratingEvents: bool
    var customDateInput: string

    /**
     * The focus is on a card (0 while there are none); the main view shows the list card of the
     * selected date first; the content map is what the log of generated texts leaves behind.
     */
    predicate Valid()
      reads this
    {
      && (if cards == [] then currentCardIndex == 0 else currentCardIndex < |cards|)
      && (currentView == MainView ==>
            && cards != [] && selectedDate.Some?
            && cards[0] == MainCard(MainCardTitle(selectedDate.value), mainEvents))
      && expandedContent == CacheOf(allGeneratedContent)
    }

    /** The initial useState values. */
    constructor ()
      ensures currentView == Cover && selectedDate == None && mainEvents == [] && cards == []
      ensures currentCardIndex == 0 && expandedContent == map[] && loadingStates == map[]
      ensures allGeneratedContent == [] && !isGeneratingEvents && customDateInput == ""
      ensures Valid()
    {
      currentView := Cover;
      selectedDate := None;
      mainEvents := [];
      cards := [];
      currentCardIndex := 0;
      expandedContent := map[];
      loadingStates := map[];
      allGeneratedContent := [];
      isGeneratingEvents := false;
      customDateInput := "";
    }

    /** The onChange of the date field. */
    method SetCustomDateInput(text: string)
      requires Valid()
      modifies this`customDateInput
      ensures Valid() && customDateInput == text
    {
      customDateInput := text;
    }

    /** generateEventsList up to the request: the cover's buttons are disabled while it runs. */
    method StartEventList(date: MonthDay) returns (prompt: Prompt)
      requires Valid()
      modifies this`isGeneratingEvents
      ensures Valid() && isGeneratingEvents
      ensures prompt == EventListPrompt(FormatDate(date))
    {
      isGeneratingEvents := true;
      prompt := EventListPrompt(FormatDate(date));
    }

    /**
     * handleCustomDate: an accepted input starts the generation of its event list; a refused
     * one changes nothing.
     */
    method HandleCustomDate() returns (r: Result<MonthDay, DateError>, prompt: Option<Prompt>)
      requires Valid()
      modifies this`isGeneratingEvents
      ensures Valid()
      ensures r.Success? ==> AcceptedDate(customDateInput, r.value)
      ensures r.Success? ==> isGeneratingEvents && prompt == Some(EventListPrompt(FormatDate(r.value)))
      ensures r.Failure? ==> forall d :: !AcceptedDate(customDateInput, d)
      ensures r.Failure? ==> isGeneratingEvents == old(isGeneratingEvents) && prompt.None?
    {
      r := ValidateCustomDate(customDateInput);
      if r.Success? {
        var p := StartEventList(r.value);
        prompt := Some(p);
      } else {
        prompt := None;
      }
    }

    /**
     * The end of generateEventsList. A decoded list replaces the events and opens the main view
     * on a fresh list card; an error only clears the flag. Texts generated earlier stay stored.
     */
    method FinishEventList(date: MonthDay, outcome: Result<seq<RawEvent>, string>)
      requires Valid()
      modifies this`mainEvents, this`selectedDate, this`cards, this`currentCardIndex, this`currentView, this`isGeneratingEvents
      ensures Valid() && !isGeneratingEvents
      ensures outcome.Success? ==>
        && mainEvents == ShapeEvents(outcome.value, FormatDate(date))
        && selectedDate == Some(date)
        && cards == [MainCard(MainCardTitle(date), mainEvents)]
        && currentCardIndex == 0 && currentView == MainView
      ensures outcome.Failure? ==>
        && mainEvents == old(mainEvents) && selectedDate == old(selectedDate) && cards == old(cards)
        && currentCardIndex == old(currentCardIndex) && currentView == old(currentView)
    {
      if outcome.Success? {
        mainEvents := ShapeEvents(outcome.value, FormatDate(date));
        selectedDate := Some(date);
        cards := [MainCard(MainCardTitle(date), mainEvents)];
        currentCardIndex := 0;
        currentView := MainView;
      }
      isGeneratingEvents := false;
    }

    /**
     * handleEventClick: one detail card is appended and focused, whether or not the event
     * already has a card, and its story is requested unless content is already stored for it.
     * The loading flag is not consulted, so a second click during a generation requests again.
     */
    method OpenEvent(e: Event) returns (request: Option<Request>)
      requires Valid()
      modifies this`cards, this`currentCardIndex, this`loadingStates
      ensures Valid()
      ensures cards == old(cards) + [DetailCardOf(e)]
      ensures currentCardIndex == |cards| - 1
      ensures !HasContent(expandedContent, e.id) ==>
        request == Some(Request(e.id, e.prompt)) && loadingStates == old(loadingStates)[e.id := true]
      ensures HasContent(expandedContent, e.id) ==> request.None? && loadingStates == old(loadingStates)
    {
      cards := cards + [DetailCardOf(e)];
      currentCardIndex := |cards| - 1;
      if !HasContent(expandedContent, e.id) {
        loadingStates := loadingStates[e.id := true];
        request := Some(Request(e.id, e.prompt));
      } else {
        request := None;
      }
    }

    /** handleExtensionClick: the same for the index-th extension offered on the card parentId. */
    method OpenExtension(parentId: string, text: string, index: nat) returns (request: Option<Request>)
      requires Valid()
      modifies this`cards, this`currentCardIndex, this`loadingStates
      ensures Valid()
      ensures cards == old(cards) + [ExtensionCardOf(parentId, text, index)]
      ensures currentCardIndex == |cards| - 1
      ensures var id := ExtensionId(parentId, index);
        !HasContent(expandedContent, id) ==>
          request == Some(Request(id, ExtensionPrompt(text))) && loadingStates == old(loadingStates)[id := true]
      ensures HasContent(expandedContent, ExtensionId(parentId, index)) ==> request.None? && loadingStates == old(loadingStates)
    {
      var id := ExtensionId(parentId, index);
      cards := cards + [ExtensionCardOf(parentId, text, index)];
      currentCardIndex := |cards| - 1;
      if !HasContent(expandedContent, id) {
        loadingStates := loadingStates[id := true];
        request := Some(Request(id, ExtensionPrompt(text)));
      } else {
        request := None;
      }
    }

    /**
     * The end of generateContent for `id`. A text is stored under the id and logged once; a
     * failure stores and logs nothing, so the id can be requested again. Either way the id stops
     * loading, and nothing else changes.
     */
    method CompleteGeneration(id: string, outcome: Result<string, string>) returns (text: string)
      requires Valid()
      modifies this`expandedContent, this`allGeneratedContent, this`loadingStates
      ensures Valid()
      ensures loadingStates == old(loadingStates)[id := false]
      ensures outcome.Success? ==>
        && expandedContent == old(expandedContent)[id := outcome.value]
        && allGeneratedContent == old(allGeneratedContent) + [LogEntry(id, outcome.value)]
        && text == outcome.value
      ensures outcome.Failure? ==>
        && expandedContent == old(expandedContent) && allGeneratedContent == old(allGeneratedContent)
        && text == Apology(outcome.error)
    {
      if outcome.Success? {
        CacheOfAppend(allGeneratedContent, LogEntry(id, outcome.value));
        expandedContent := expandedContent[id := outcome.value];
        allGeneratedContent := allGeneratedContent + [LogEntry(id, outcome.value)];
        loadingStates := loadingStates[id := false];
        text := outcome.value;
      } else {
        loadingStates := loadingStates[id := false];
        text := Apology(outcome.error);
      }
    }

    /** The left arrow. */
    method GoLeft()
      requires Valid() && currentView == MainView
      modifies this`currentCardIndex
      ensures Valid()
      ensures currentCardIndex == LeftIndex(old(currentCardIndex))
    {
      currentCardIndex := LeftIndex(currentCardIndex);
    }

    /** The right arrow. */
    method GoRight()
      requires Valid() && currentView == MainView
      modifies this`currentCardIndex
      ensures Valid()
      ensures currentCardIndex == RightIndex(old(currentCardIndex), |cards|)
    {
      currentCardIndex := RightIndex(currentCardIndex, |cards|);
    }

    /** A dot under the cards: one per card. */
    method GoToCard(k: nat)
      requires Valid() && k < |cards|
      modifies this`currentCardIndex
      ensures Valid() && currentCardIndex == k
    {
      currentCardIndex := k;
    }

    /** handleBackToMain. No element of the rendered page calls it, so the page cannot reach it. */
    method BackToMain()
      requires Valid()
      modifies this`currentCardIndex
      ensures Valid() && currentCardIndex == 0
    {
      currentCardIndex := 0;
    }

    /**
     * "返回日期选择": back to the cover with no events, cards or texts and an empty date field.
     * The loading flags and the selected date are left as they are.
     */
    method ResetToCover()
      requires Valid()
      modifies this`currentView, this`mainEvents, this`cards, this`expandedContent,
               this`allGeneratedContent, this`currentCardIndex, this`customDateInput
      ensures Valid()
      ensures currentView == Cover && mainEvents == [] && cards == [] && expandedContent == map[]
      ensures allGeneratedContent == [] && currentCardIndex == 0 && customDateInput == ""
      ensures loadingStates == old(loadingStates) && selectedDate == old(selectedDate)
    {
      currentView := Cover;
      mainEvents := [];
      cards := [];
      expandedContent := map[];
      allGeneratedContent := [];
      currentCardIndex := 0;
      customDateInput := "";
    }

    /** exportAllContent, the time of export given as `timestamp`: a loop over the log. */
    method ExportAllContent(timestamp: string) returns (text: string)
      ensures text == ExportText(selectedDate, timestamp, allGeneratedContent, mainEvents)
    {
      var dateStr := if selectedDate.Some? then FormatDate(selectedDate.value) else UnknownDate;
      text := "✨ Luna的历史探索记录 - " + dateStr + " ✨\n";
      text := text + "生成时间: " + timestamp + "\n";
      text := text + Repeat('=', RuleWidth) + "\n\n";
      var log := allGeneratedContent;
      ghost var header := Header(dateStr, timestamp);
      assert text == header + Blocks(log[..0], 0, mainEvents);
      for i := 0 to |log|
        invariant text == header + Blocks(log[..i], 0, mainEvents)
      {
        var entry := log[i];
        var heading := Label(entry, i, mainEvents);
        var block := heading + "\n\n" + entry.content + "\n\n" + Repeat('-', RuleWidth) + "\n\n";
        BlockAppended(log, i, mainEvents, heading, block);
        Associative(header, Blocks(log[..i], 0, mainEvents), block);
        text := text + block;
      }
      assert log[..|log|] == log;
    }
  }

  lemma BlockAppended(log: seq<LogEntry>, i: nat, mainEvents: seq<Event>, heading: string, block: string)
    requires i < |log|
    requires heading == Label(log[i], i, mainEvents)
    requires block == Block(heading, log[i].content)
    ensures Blocks(log[..i + 1], 0, mainEvents) == Blocks(log[..i], 0, mainEvents) + block
  {
    assert log[..i + 1] == log[..i] + [log[i]];
    BlocksAppend(log[..i], [log[i]], 0, i, mainEvents);
    SingleBlock(log[i], i, mainEvents);
  }
}
