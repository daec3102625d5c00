/**
 The talk window's session: asking about topics, navigating the topic tree,
 the tone buttons, the logbook button, and opening (`OnPush`) and closing
 (`OnPop`) the window.

 Everything the window asks of the rest of the game is a parameter: the
 host's topic lists and question and answer texts (`Host`), and the random
 draws one user action consumes (`Draws`). A topic list is named by its
 position in the host's forest of lists, so the `children` and `parent`
 references of a `TopicItem` are positions; a position outside the forest
 is treated as a null reference.
 */
module Conversation {
  import opened Text
  import opened Topics
  import Conditions
  import Catalog
  import Knowledge
  import TopicTable
  import opened Transcript

  /** `TalkTone`. */
  datatype Tone = Polite | Normal | Blunt

  /** `TalkToneToIndex`. */
  function ToneIndex(tone: Tone): (i: nat)
    ensures i < 3
  {
    match tone
    case Polite => 0
    case Normal => 1
    case Blunt => 2
  }

  /** The tone a button index stands for. */
  function ToneAt(i: nat): Tone
    requires i < 3
  {
    if i == 0 then Polite else if i == 1 then Normal else Blunt
  }

  /** Tone and index are in one-to-one correspondence: the index names the
      tone back, and every index below three names a tone. */
  lemma ToneIndexRoundTrip(tone: Tone, i: nat)
    requires i < 3
    ensures ToneAt(ToneIndex(tone)) == tone
    ensures ToneIndex(ToneAt(i)) == i
  {
  }

  /** The answers to a custom topic asked about again; `[caption]` stands
      for the topic's caption. */
  const RepeatedResponses: seq<string> := [
    "I've already said all I care to, %ra.",
    "Enough about " + CaptionPlaceholder + " already.",
    "I'd rather not talk about " + CaptionPlaceholder + " anymore, %ra."
  ]

  const CaptionPlaceholder: string := "[caption]"

  /** The caption whose question is one of the advice variants. */
  const AdviceCaption: string := "Any advice?"

  const FirstAdviceQuestions: seq<string> := [
    "Good day, stranger. Do you have any advice for me?",
    "Good day. Could you offer me some advice?",
    "Hello, mate. What advice might you have for someone like me?"
  ]

  const LaterAdviceQuestions: seq<string> := [
    "Hmm. Do you have any advice for me?",
    "I see. Could you offer me some advice?",
    "Interesting. What advice might you have for someone like me?"
  ]

  /** The fact holding the region the player is in. */
  const RegionFact: string := "Current Region Name"

  /** What the window asks of the game: the tell-me-about topics, the forest
      of topic lists, the question and answer texts, the news, the macro
      expander and whether the NPC talked to is a mobile one. */
  datatype Host = Host(
    tellMeAbout: seq<TopicItem>,
    lists: seq<seq<TopicItem>>,
    questionText: (TopicItem, Tone) -> string,
    answerText: TopicItem -> string,
    news: string,
    macros: string -> Option<string>,
    npcMobile: bool)

  /** The random draws one user action consumes: `Random.Range(0, n)` is
      `draw % n` (and 0 when `n` is 0, as `Random.Range` returns its lower
      bound for an empty range); `dice(k)(slot)` is the roll of the random
      condition in slot `slot` of custom topic `k`. */
  datatype Draws = Draws(template: nat, variant: nat, advice: nat, dice: nat -> nat -> int)
  {
    ghost predicate InRange() {
      forall k: nat :: Conditions.RollsInRange(dice(k))
    }
  }

  /** `UnityEngine.Random.Range(0, n)` for the given draw. */
  function Pick(draw: nat, n: nat): (i: nat)
    ensures n > 0 ==> i < n
    ensures n == 0 ==> i == 0
  {
    if n == 0 then 0 else draw % n
  }

  /** The window's state. `guard` is `inListboxTopicContentUpdate`; `topics`
      and `selected` are the topic list box; `known` is the save-wide
      `knownCaptions`; `responded` holds the lower-cased captions of the
      custom topics answered since the window opened; `question` is
      `currentQuestion` and `said` the player-says label; `lines` and
      `copied` are the conversation list box and the logbook's copied line
      indexes; `entries` are the loaded custom topics and `facts` the
      condition variables. */
  datatype Session = Session(
    guard: bool,
    topics: seq<TopicItem>,
    selected: int,
    known: set<string>,
    responded: set<string>,
    firstAdvice: bool,
    question: string,
    said: string,
    tone: Tone,
    toneLastUsed: int,
    lines: seq<Line>,
    copied: seq<int>,
    entries: seq<Topics.Entry>,
    facts: Conditions.Facts)

  /** Every copied index names a line of the conversation. */
  predicate CopiedInRange(s: Session) {
    forall i :: 0 <= i < |s.copied| ==> 0 <= s.copied[i] < |s.lines|
  }

  /** The topic list `handle` names, if it names one. */
  function ListAt(host: Host, handle: Option<nat>): (r: Option<seq<TopicItem>>)
    ensures r.Some? <==> handle.Some? && handle.value < |host.lists|
    ensures r.Some? ==> r.value == host.lists[handle.value]
  {
    if handle.Some? && handle.value < |host.lists| then Some(host.lists[handle.value]) else None
  }

  /** Which custom topics pass their conditions under the given rolls. */
  function Screen(entries: seq<Topics.Entry>, facts: Conditions.Facts, draws: Draws): (r: seq<bool>)
    requires draws.InRange()
    ensures |r| == |entries|
  {
    seq(|entries|, k requires 0 <= k < |entries| =>
      assert Conditions.RollsInRange(draws.dice(k));
      Conditions.Eligible(entries[k].conditions, facts, draws.dice(k)))
  }

  /** A custom topic passes the screen exactly when its conditions hold
      under its own rolls. */
  lemma ScreenPasses(entries: seq<Topics.Entry>, facts: Conditions.Facts, draws: Draws, k: nat)
    requires draws.InRange() && k < |entries|
    ensures Conditions.RollsInRange(draws.dice(k))
    ensures Screen(entries, facts, draws)[k] == Conditions.Eligible(entries[k].conditions, facts, draws.dice(k))
  {
  }

  /** The item `SetListboxTopics` selects in a non-empty list: the second
      one when the first leads back to a parent list, else the first. */
  function DefaultSelection(list: seq<TopicItem>): (i: nat)
    requires |list| > 0
    ensures i < |list| || (i == 1 && |list| == 1)
    ensures i == 1 <==> list[0].parent.Some?
  {
    if list[0].parent.Some? then 1 else 0
  }

  /** `SetListboxTopics`: shows `list`; an empty list keeps the old selection. */
  function SetListing(s: Session, list: seq<TopicItem>): (r: Session)
    ensures r == s.(topics := list, selected := r.selected)
    ensures |list| > 0 ==> r.selected == DefaultSelection(list)
    ensures |list| == 0 ==> r.selected == s.selected
  {
    s.(topics := list, selected := if |list| == 0 then s.selected else DefaultSelection(list))
  }

  /** `UpdateTellMeAboutTopics`: the tell-me-about catalog under the
      session's known captions and facts. */
  function Listing(s: Session, host: Host, draws: Draws): seq<TopicItem>
    requires draws.InRange()
  {
    Catalog.TellMeAbout(host.tellMeAbout, s.entries, s.known, Screen(s.entries, s.facts, draws))
  }

  /** The first position whose caption is exactly `caption`, or -1. */
  function FindCaption(topics: seq<TopicItem>, caption: string): (r: int)
    ensures -1 <= r < |topics|
    ensures r == -1 <==> forall j :: 0 <= j < |topics| ==> topics[j].caption != caption
    ensures r >= 0 ==> topics[r].caption == caption && forall j :: 0 <= j < r ==> topics[j].caption != caption
  {
    if |topics| == 0 then -1
    else if topics[0].caption == caption then 0
    else
      var r := FindCaption(topics[1..], caption);
      assert forall j :: 1 <= j < |topics| ==> topics[j] == topics[1..][j - 1];
      if r == -1 then -1 else r + 1
  }

  /** The question the player asks about `item`. */
  function QuestionFor(host: Host, item: TopicItem, tone: Tone, firstAdvice: bool, adviceDraw: nat): (q: string)
    ensures item.kind != Item ==> q == ""
    ensures item.kind == Item && Key(item.caption) == Knowledge.AnyAdvice ==>
              q in (if firstAdvice then FirstAdviceQuestions else LaterAdviceQuestions)
    ensures item.kind == Item && Key(item.caption) != Knowledge.AnyAdvice ==> q == host.questionText(item, tone)
  {
    if item.kind != Item then ""
    else if Key(item.caption) == Knowledge.AnyAdvice then
      (if firstAdvice then FirstAdviceQuestions else LaterAdviceQuestions)[Pick(adviceDraw, 3)]
    else host.questionText(item, tone)
  }

  /** The advice test of `UpdateQuestion`, a case-insensitive comparison
      with "Any advice?", is the comparison of the caption's key with the
      caption every save starts out knowing. */
  lemma AdviceTest(caption: string)
    ensures EqualsIgnoreCase(caption, AdviceCaption) <==> Key(caption) == Knowledge.AnyAdvice
  {
    EqualsIgnoreCaseIsLowerEquality(caption, AdviceCaption);
    AdviceKey();
  }

  lemma AdviceKey()
    ensures ToLower(AdviceCaption) == Knowledge.AnyAdvice
  {
    ToLowerByChars(AdviceCaption, Knowledge.AnyAdvice);
  }

  /** `UpdateQuestion(index)`: a position outside the topic list clears the
      player-says label and keeps the previous question. */
  function UpdateQuestion(s: Session, host: Host, index: int, adviceDraw: nat): (r: Session)
    ensures index < 0 || index >= |s.topics| ==> r == s.(said := "")
    ensures 0 <= index < |s.topics| ==>
              r == s.(question := r.question, said := r.question) &&
              r.question == QuestionFor(host, s.topics[index], s.tone, s.firstAdvice, adviceDraw)
  {
    if index < 0 || index >= |s.topics| then s.(said := "")
    else
      var q := QuestionFor(host, s.topics[index], s.tone, s.firstAdvice, adviceDraw);
      s.(question := q, said := q)
  }

  /** `SetQuestionAnswerPairInConversationListbox`. */
  function AddPair(s: Session, question: string, answer: string): Session {
    s.(lines := s.lines + [Line(question, true), Line(answer, false)], firstAdvice := false)
  }

  /** The repeated-answer template `draw` selects, with the caption filled in. */
  function RepeatedResponse(caption: string, draw: nat): string {
    ReplaceAll(RepeatedResponses[Pick(draw, |RepeatedResponses|)], CaptionPlaceholder, caption)
  }

  /** What asking about an item yields: the answer, the known and responded
      captions afterwards, and whether a caption was newly unlocked
      (`topicsUpdated`). */
  datatype Reply = Reply(answer: string, known: set<string>, responded: set<string>, updated: bool)

  /** The answer variants of a custom topic: the non-empty `|`-separated pieces. */
  function Variants(e: Topics.Entry): seq<string> {
    SplitNonEmpty(e.answer, '|')
  }

  /** The variant `Random.Range` picks, as the answer is written: `None`
      when the answer has no non-empty variant, where the window indexes an
      empty array. */
  function PickVariantAsWritten(e: Topics.Entry, draw: nat): (r: Option<string>)
    ensures r.None? <==> |Variants(e)| == 0
  {
    var variants := Variants(e);
    if |variants| == 0 then None else Some(Trim(variants[Pick(draw, |variants|)]))
  }

  /** The variant `Random.Range` picks, an answer without variants being
      the empty answer. */
  function PickVariant(e: Topics.Entry, draw: nat): string {
    var variants := Variants(e);
    if |variants| == 0 then "" else Trim(variants[Pick(draw, |variants|)])
  }

  /** The reply to custom topic `e` listed under `caption`; `None` where the
      window throws (only as written, with no answer variant). */
  function CustomReply(s: Session, host: Host, caption: string, e: Topics.Entry, draws: Draws, corrected: bool): Option<Reply> {
    var key := Key(caption);
    if key in s.responded then
      Some(Reply(ExpandMacros(host.macros, RepeatedResponse(caption, draws.template)), s.known, s.responded, false))
    else
      var picked := if corrected then Some(PickVariant(e, draws.variant)) else PickVariantAsWritten(e, draws.variant);
      match picked
      case None => None
      case Some(answer) =>
        var sel := Pick(draws.variant, |Variants(e)|);
        var unlocked := Knowledge.Unlock(s.known, Knowledge.CaptionsFor(e.addCaption, sel));
        Some(Reply(answer, unlocked.0, s.responded + {key}, unlocked.1))
  }

  /** Whether asking where-am-I unlocks the current region's caption. */
  predicate UnlocksRegion(s: Session, host: Host, item: TopicItem) {
    item.question == WhereAmI && host.npcMobile && RegionFact in s.facts
  }

  /** The reply to a topic of the game's own: the game's answer, after
      which a where-am-I question to a mobile NPC makes the region a known
      caption. */
  function BuiltinReply(s: Session, host: Host, item: TopicItem): Reply {
    var unlocked :=
      if UnlocksRegion(s, host, item) then Knowledge.Unlock(s.known, [ToLower(s.facts[RegionFact])])
      else (s.known, false);
    Reply(host.answerText(item), unlocked.0, s.responded, unlocked.1)
  }

  /** The custom topic behind a list item, if the item is one the loader made. */
  function CustomEntry(s: Session, item: TopicItem): Option<Topics.Entry> {
    if item.entry.Some? && item.entry.value < |s.entries| then Some(s.entries[item.entry.value]) else None
  }

  /** The reply to asking about `item`. */
  function ReplyTo(s: Session, host: Host, item: TopicItem, draws: Draws, corrected: bool): Option<Reply> {
    if item.question == News then Some(Reply(host.news, s.known, s.responded, false))
    else match CustomEntry(s, item)
      case Some(e) => CustomReply(s, host, item.caption, e, draws, corrected)
      case None => Some(BuiltinReply(s, host, item))
  }

  /** After the reply: the listing is rebuilt when a caption was unlocked,
      the asked caption is selected again where it is still listed, the
      question is refreshed and the question-answer pair is added. */
  function Answered(s: Session, host: Host, caption: string, reply: Reply, draws: Draws): (r: Session)
    requires draws.InRange()
    ensures r.topics == if reply.updated then Listing(s.(known := reply.known), host, draws) else s.topics
    ensures r.known == reply.known && r.responded == reply.responded && !r.firstAdvice
    ensures r.lines == s.lines + [Line(r.question, true), Line(reply.answer, false)]
    ensures r == s.(topics := r.topics, selected := r.selected, known := r.known, responded := r.responded,
                    firstAdvice := false, question := r.question, said := r.said, lines := r.lines)
  {
    var s1 := s.(known := reply.known, responded := reply.responded);
    var s2 := if reply.updated then SetListing(s1, Listing(s1, host, draws)) else s1;
    var found := FindCaption(s2.topics, caption);
    var s3 := if found >= 0 then s2.(selected := found) else s2;
    var s4 := UpdateQuestion(s3, host, found, draws.advice);
    AddPair(s4, s4.question, reply.answer)
  }

  /** How a topic selection ends: normally, or with an exception that leaves
      the window in the state it had reached. */
  datatype Outcome = Completed(session: Session) | Threw(session: Session)

  /** `SelectTopicFromTopicList(index, force)`; `corrected` chooses how an
      answer without variants is handled. */
  function Select(s: Session, host: Host, index: int, force: bool, draws: Draws, corrected: bool): Outcome
    requires draws.InRange()
  {
    if s.guard && !force then Completed(s)
    else if index < 0 || index >= |s.topics| then Completed(s.(guard := false))
    else
      var item := s.topics[index];
      var s1 := s.(guard := true, selected := index);
      if item.kind == NavigationBack then
        Completed((match ListAt(host, item.parent) case Some(l) => SetListing(s1, l) case None => s1).(guard := false))
      else if item.kind == ItemGroup then
        Completed((match ListAt(host, item.children) case Some(l) => SetListing(s1, l) case None => s1).(guard := false))
      else
        match ReplyTo(s1, host, item, draws, corrected)
        case None => Threw(s1)
        case Some(reply) => Completed(Answered(s1, host, item.caption, reply, draws).(guard := false))
  }

  /** The topic selection as the window performs it. */
  function SelectTopicAsWritten(s: Session, host: Host, index: int, force: bool, draws: Draws): (r: Outcome)
    requires draws.InRange()
    ensures r.Threw? ==> r.session.guard
  {
    Select(s, host, index, force, draws, false)
  }

  /** The topic selection with an answer without variants read as the empty
      answer; it always completes. */
  function SelectTopic(s: Session, host: Host, index: int, force: bool, draws: Draws): (r: Session)
    requires draws.InRange()
    ensures s.guard && !force ==> r == s
    ensures !s.guard || force ==> !r.guard
  {
    match Select(s, host, index, force, draws, true)
    case Completed(r) => r
    case Threw(r) => assert false; r
  }

  /** Whether a selection gets past the re-entrancy guard. */
  predicate Enters(s: Session, force: bool) {
    !s.guard || force
  }

  /** A position outside the topic list only releases the guard. */
  lemma OutOfRangeReleasesGuard(s: Session, host: Host, index: int, force: bool, draws: Draws)
    requires draws.InRange() && Enters(s, force)
    requires index < 0 || index >= |s.topics|
    ensures SelectTopic(s, host, index, force, draws) == s.(guard := false)
  {
  }

  /** A navigation-back item shows its parent list with the default
      selection; one without a parent only becomes the selection. Nothing
      else changes. */
  lemma BackShowsParent(s: Session, host: Host, index: int, force: bool, draws: Draws)
    requires draws.InRange() && Enters(s, force)
    requires 0 <= index < |s.topics| && s.topics[index].kind == NavigationBack
    ensures var r := SelectTopic(s, host, index, force, draws);
            match ListAt(host, s.topics[index].parent)
            case Some(l) =>
              r == s.(guard := false, topics := l, selected := if |l| == 0 then index else DefaultSelection(l))
            case None => r == s.(guard := false, selected := index)
  {
  }

  /** A group item shows its child list with the default selection; one
      without children only becomes the selection. Nothing else changes. */
  lemma GroupShowsChildren(s: Session, host: Host, index: int, force: bool, draws: Draws)
    requires draws.InRange() && Enters(s, force)
    requires 0 <= index < |s.topics| && s.topics[index].kind == ItemGroup
    ensures var r := SelectTopic(s, host, index, force, draws);
            match ListAt(host, s.topics[index].children)
            case Some(l) =>
              r == s.(guard := false, topics := l, selected := if |l| == 0 then index else DefaultSelection(l))
            case None => r == s.(guard := false, selected := index)
  {
  }

  /** The three repeated-answer templates with the caption filled in; the
      first one does not mention the caption. */
  lemma RepeatedResponseText(caption: string, draw: nat)
    ensures Pick(draw, 3) == 0 ==> RepeatedResponse(caption, draw) == RepeatedResponses[0]
    ensures Pick(draw, 3) == 1 ==> RepeatedResponse(caption, draw) == "Enough about " + caption + " already."
    ensures Pick(draw, 3) == 2 ==>
              RepeatedResponse(caption, draw) == "I'd rather not talk about " + caption + " anymore, %ra."
  {
    var i := Pick(draw, 3);
    if i == 0 {
      FirstTemplatePlain(caption);
    } else if i == 1 {
      ReplaceOnce("Enough about ", " already.", CaptionPlaceholder, caption);
    } else {
      ReplaceOnce("I'd rather not talk about ", " anymore, %ra.", CaptionPlaceholder, caption);
    }
  }

  lemma FirstTemplatePlain(caption: string)
    ensures ReplaceAll(RepeatedResponses[0], CaptionPlaceholder, caption) == RepeatedResponses[0]
  {
    ReplaceAbsent(RepeatedResponses[0], CaptionPlaceholder, caption);
  }

  /** The ask an item selection performs: the selection becomes the item,
      the reply is computed and answered, and the guard is released. */
  lemma AskIs(s: Session, host: Host, index: int, force: bool, draws: Draws)
    requires draws.InRange() && Enters(s, force)
    requires 0 <= index < |s.topics| && s.topics[index].kind == Item
    ensures var s1 := s.(guard := true, selected := index);
            var reply := ReplyTo(s1, host, s.topics[index], draws, true);
            reply.Some? &&
            Select(s, host, index, force, draws, true) ==
              Completed(Answered(s1, host, s.topics[index].caption, reply.value, draws).(guard := false))
  {
    var s1 := s.(guard := true, selected := index);
    ReplyGrows(s1, host, s.topics[index], draws);
    SelectItem(s, host, index, force, draws, true);
  }

  lemma AnsweredReselects(s: Session, host: Host, caption: string, reply: Reply, draws: Draws)
    requires draws.InRange()
    ensures var r := Answered(s, host, caption, reply, draws);
            var found := FindCaption(r.topics, caption);
            (found >= 0 ==> r.selected == found && r.question == r.said == QuestionFor(host, r.topics[found], s.tone, s.firstAdvice, draws.advice)) &&
            (found == -1 ==> r.said == "" && r.question == s.question)
  {
  }

  /** Selecting an item computes its reply and, unless that throws,
      answers it and releases the guard. */
  lemma SelectItem(s: Session, host: Host, index: int, force: bool, draws: Draws, corrected: bool)
    requires draws.InRange() && Enters(s, force)
    requires 0 <= index < |s.topics| && s.topics[index].kind == Item
    ensures var s1 := s.(guard := true, selected := index);
            Select(s, host, index, force, draws, corrected) ==
              match ReplyTo(s1, host, s.topics[index], draws, corrected)
              case None => Threw(s1)
              case Some(reply) => Completed(Answered(s1, host, s.topics[index].caption, reply, draws).(guard := false))
  {
  }

  /** Every reply only adds known and responded captions. */
  lemma ReplyGrows(s: Session, host: Host, item: TopicItem, draws: Draws)
    ensures var reply := ReplyTo(s, host, item, draws, true);
            reply.Some? && s.known <= reply.value.known && s.responded <= reply.value.responded
  {
  }

  /** Asking about an item adds exactly one question-answer pair after the
      existing lines, clears the first-advice flag and only ever adds known
      and responded captions; the topic table, facts, tone and copied lines
      stay as they were. */
  lemma AskAddsOnePair(s: Session, host: Host, index: int, force: bool, draws: Draws)
    requires draws.InRange() && Enters(s, force)
    requires 0 <= index < |s.topics| && s.topics[index].kind == Item
    ensures var r := SelectTopic(s, host, index, force, draws);
            |r.lines| == |s.lines| + 2 && r.lines[..|s.lines|] == s.lines &&
            r.lines[|s.lines|] == Line(r.question, true) && !r.lines[|s.lines| + 1].isQuestion &&
            !r.firstAdvice && s.known <= r.known && s.responded <= r.responded &&
            r.entries == s.entries && r.facts == s.facts && r.tone == s.tone && r.copied == s.copied
  {
    AskIs(s, host, index, force, draws);
    ReplyGrows(s.(guard := true, selected := index), host, s.topics[index], draws);
    var r := SelectTopic(s, host, index, force, draws);
    assert r.lines[..|s.lines|] == s.lines;
  }

  /** After an ask the asked caption is selected again where the listing
      still holds it, and the question is that item's; where the rebuilt
      listing dropped it, the player-says label is cleared and the pair
      repeats the previous question. */
  lemma AskReselects(s: Session, host: Host, index: int, force: bool, draws: Draws)
    requires draws.InRange() && Enters(s, force)
    requires 0 <= index < |s.topics| && s.topics[index].kind == Item
    ensures var r := SelectTopic(s, host, index, force, draws);
            var found := FindCaption(r.topics, s.topics[index].caption);
            (found >= 0 ==>
               r.selected == found &&
               r.question == r.said == QuestionFor(host, r.topics[found], s.tone, s.firstAdvice, draws.advice)) &&
            (found == -1 ==> r.said == "" && r.question == s.question)
  {
    AskIs(s, host, index, force, draws);
    var s1 := s.(guard := true, selected := index);
    AnsweredReselects(s1, host, s.topics[index].caption, ReplyTo(s1, host, s.topics[index], draws, true).value, draws);
  }

  /** The conditions under which asking about item `index` reaches the
      custom topic behind it. */
  predicate AsksCustom(s: Session, index: int) {
    0 <= index < |s.topics| && s.topics[index].kind == Item && s.topics[index].question != News &&
    CustomEntry(s, s.topics[index]).Some?
  }

  /** Asking again about a custom topic answered since the window opened
      gives a repeated-answer template and unlocks nothing. */
  lemma RepeatAskRefuses(s: Session, host: Host, index: int, force: bool, draws: Draws)
    requires draws.InRange() && Enters(s, force)
    requires AsksCustom(s, index) && Key(s.topics[index].caption) in s.responded
    ensures var r := SelectTopic(s, host, index, force, draws);
            r.known == s.known && r.responded == s.responded && r.topics == s.topics &&
            r.lines == s.lines + [Line(r.question, true),
                                  Line(ExpandMacros(host.macros, RepeatedResponse(s.topics[index].caption, draws.template)), false)]
  {
    AskIs(s, host, index, force, draws);
  }

  /** The first ask about a custom topic answers with the picked variant,
      records the topic as responded and unlocks the captions listed for
      that variant; the listing is rebuilt exactly when one of them was not
      known yet. */
  lemma FirstAskUnlocks(s: Session, host: Host, index: int, force: bool, draws: Draws)
    requires draws.InRange() && Enters(s, force)
    requires AsksCustom(s, index) && Key(s.topics[index].caption) !in s.responded
    ensures var item := s.topics[index];
            var e := CustomEntry(s, item).value;
            var captions := Knowledge.CaptionsFor(e.addCaption, Pick(draws.variant, |Variants(e)|));
            var r := SelectTopic(s, host, index, force, draws);
            r.responded == s.responded + {Key(item.caption)} &&
            r.known == s.known + (set c | c in captions) &&
            r.lines == s.lines + [Line(r.question, true), Line(PickVariant(e, draws.variant), false)] &&
            r.topics == if exists c :: c in captions && c !in s.known
                        then Catalog.TellMeAbout(host.tellMeAbout, s.entries, r.known, Screen(s.entries, s.facts, draws))
                        else s.topics
  {
    AskIs(s, host, index, force, draws);
  }

  /** Asking a mobile NPC where-am-I makes the current region a known
      caption, rebuilding the listing when it was new; the answer is the
      game's. */
  lemma WhereAmIUnlocksRegion(s: Session, host: Host, index: int, force: bool, draws: Draws)
    requires draws.InRange() && Enters(s, force)
    requires 0 <= index < |s.topics| && s.topics[index].kind == Item
    requires s.topics[index].question == WhereAmI && CustomEntry(s, s.topics[index]).None?
    ensures var item := s.topics[index];
            var r := SelectTopic(s, host, index, force, draws);
            r.responded == s.responded &&
            r.lines == s.lines + [Line(r.question, true), Line(host.answerText(item), false)] &&
            if host.npcMobile && RegionFact in s.facts then
              var region := ToLower(s.facts[RegionFact]);
              r.known == s.known + {region} &&
              r.topics == if region in s.known then s.topics
                          else Catalog.TellMeAbout(host.tellMeAbout, s.entries, r.known, Screen(s.entries, s.facts, draws))
            else r.known == s.known && r.topics == s.topics
  {
    AskIs(s, host, index, force, draws);
  }

  /** The news item answers with the news and unlocks nothing. */
  lemma NewsUnlocksNothing(s: Session, host: Host, index: int, force: bool, draws: Draws)
    requires draws.InRange() && Enters(s, force)
    requires 0 <= index < |s.topics| && s.topics[index].kind == Item && s.topics[index].question == News
    ensures var r := SelectTopic(s, host, index, force, draws);
            r.known == s.known && r.responded == s.responded && r.topics == s.topics &&
            r.lines == s.lines + [Line(r.question, true), Line(host.news, false)]
  {
    AskIs(s, host, index, force, draws);
  }

  /** Every selection keeps the lines already in the conversation, the copy
      list, the topic table and the facts, and only ever adds known
      captions. */
  lemma SelectKeepsTranscript(s: Session, host: Host, index: int, force: bool, draws: Draws)
    requires draws.InRange()
    ensures var r := SelectTopic(s, host, index, force, draws);
            |s.lines| <= |r.lines| && r.lines[..|s.lines|] == s.lines && r.copied == s.copied &&
            r.entries == s.entries && r.facts == s.facts && s.known <= r.known
  {
    if Enters(s, force) && 0 <= index < |s.topics| && s.topics[index].kind == Item {
      AskAddsOnePair(s, host, index, force, draws);
    } else if Enters(s, force) && 0 <= index < |s.topics| && s.topics[index].kind == NavigationBack {
      BackShowsParent(s, host, index, force, draws);
    } else if Enters(s, force) && 0 <= index < |s.topics| {
      GroupShowsChildren(s, host, index, force, draws);
    }
  }

  /** Copied indexes keep naming conversation lines across selections. */
  lemma SelectKeepsCopiedInRange(s: Session, host: Host, index: int, force: bool, draws: Draws)
    requires draws.InRange() && CopiedInRange(s)
    ensures CopiedInRange(SelectTopic(s, host, index, force, draws))
  {
    SelectKeepsTranscript(s, host, index, force, draws);
  }

  // ---------------------------------------------------------------------------
  // An answer without variants
  // ---------------------------------------------------------------------------

  /** An answer made of separators only, the empty answer included, has no
      variant. */
  lemma AnswerWithoutVariants(e: Topics.Entry)
    requires forall i :: 0 <= i < |e.answer| ==> e.answer[i] == '|'
    ensures |Variants(e)| == 0
  {
    SplitSeparatorsOnly(e.answer, '|');
  }

  /** As written, the first ask about a custom topic without answer variants
      throws with the guard still set, and from then on every selection that
      is not forced is ignored. */
  lemma EmptyAnswerLatchesGuard(s: Session, host: Host, index: int, draws: Draws, later: int, laterDraws: Draws)
    requires draws.InRange() && laterDraws.InRange() && !s.guard
    requires AsksCustom(s, index) && Key(s.topics[index].caption) !in s.responded
    requires |Variants(CustomEntry(s, s.topics[index]).value)| == 0
    ensures var o := SelectTopicAsWritten(s, host, index, false, draws);
            o.Threw? && o.session.guard &&
            SelectTopicAsWritten(o.session, host, later, false, laterDraws) == Completed(o.session)
  {
    var s1 := s.(guard := true, selected := index);
    AsWrittenThrows(s, host, index, draws);
    GuardBlocks(s1, host, later, laterDraws, false);
  }

  /** As written, the first ask about a custom topic without answer
      variants throws right after setting the guard and the selection. */
  lemma AsWrittenThrows(s: Session, host: Host, index: int, draws: Draws)
    requires draws.InRange() && !s.guard
    requires AsksCustom(s, index) && Key(s.topics[index].caption) !in s.responded
    requires |Variants(CustomEntry(s, s.topics[index]).value)| == 0
    ensures SelectTopicAsWritten(s, host, index, false, draws) == Threw(s.(guard := true, selected := index))
  {
    var s1 := s.(guard := true, selected := index);
    var item := s.topics[index];
    var e := CustomEntry(s, item).value;
    assert CustomEntry(s1, item) == Some(e);
    assert PickVariantAsWritten(e, draws.variant).None?;
    assert CustomReply(s1, host, item.caption, e, draws, false).None?;
    assert ReplyTo(s1, host, item, draws, false).None?;
    SelectItem(s, host, index, false, draws, false);
  }

  /** While the guard is set, a selection that is not forced changes nothing. */
  lemma GuardBlocks(s: Session, host: Host, index: int, draws: Draws, corrected: bool)
    requires draws.InRange() && s.guard
    ensures Select(s, host, index, false, draws, corrected) == Completed(s)
  {
  }

  /** The two ways of handling an answer without variants reply alike
      wherever the window as written does not throw. */
  lemma ReplyAgrees(s: Session, host: Host, item: TopicItem, draws: Draws)
    requires ReplyTo(s, host, item, draws, false).Some?
    ensures ReplyTo(s, host, item, draws, true) == ReplyTo(s, host, item, draws, false)
  {
  }

  /** Corrected, the same ask answers with nothing, records the topic as
      responded and releases the guard. */
  lemma EmptyAnswerReleasesGuard(s: Session, host: Host, index: int, force: bool, draws: Draws)
    requires draws.InRange() && Enters(s, force)
    requires AsksCustom(s, index) && Key(s.topics[index].caption) !in s.responded
    requires |Variants(CustomEntry(s, s.topics[index]).value)| == 0
    ensures var r := SelectTopic(s, host, index, force, draws);
            !r.guard && r.responded == s.responded + {Key(s.topics[index].caption)} &&
            r.lines == s.lines + [Line(r.question, true), Line("", false)]
  {
    FirstAskUnlocks(s, host, index, force, draws);
  }

  /** Wherever the window as written completes, the corrected selection
      does the same. */
  lemma CorrectedAgrees(s: Session, host: Host, index: int, force: bool, draws: Draws)
    requires draws.InRange()
    requires SelectTopicAsWritten(s, host, index, force, draws).Completed?
    ensures SelectTopicAsWritten(s, host, index, force, draws) == Completed(SelectTopic(s, host, index, force, draws))
  {
    if Enters(s, force) && 0 <= index < |s.topics| && s.topics[index].kind == Item {
      SelectItem(s, host, index, force, draws, false);
      SelectItem(s, host, index, force, draws, true);
      ReplyAgrees(s.(guard := true, selected := index), host, s.topics[index], draws);
    }
  }

  // ---------------------------------------------------------------------------
  // Opening and closing the window, tone and logbook buttons
  // ---------------------------------------------------------------------------

  /** The copy list names conversation lines, each at most once. */
  predicate Consistent(s: Session) {
    CopiedInRange(s) && NoDuplicates(s.copied)
  }

  /** How opening the window ends: with the tell-me-about listing shown, or
      with the topic table's load stopped at a short line, the exception
      leaving the facts and the listing unset. */
  datatype Opening = Opened(session: Session) | LoadAborted(session: Session, failedLine: nat)

  /** `OnPush`: a fresh conversation starting with the NPC's greeting, the
      topic table's topics appended to those already loaded, the facts
      gathered and the tell-me-about listing shown. The guard, the
      first-advice flag, the tone and the known captions carry over. */
  function Start(s: Session, host: Host, greeting: string, asset: Option<string>, facts: Conditions.Facts, draws: Draws): (o: Opening)
    requires draws.InRange()
    ensures var loaded := TopicTable.LoadTopics(asset, host.macros);
            (o.LoadAborted? <==> loaded.failedLine.Some?) &&
            (o.LoadAborted? ==> o.failedLine == loaded.failedLine.value) &&
            o.session.entries == s.entries + loaded.entries
    ensures var r := o.session;
            r.responded == {} && r.copied == [] && r.lines == [Line(greeting, false)] &&
            r.question == "" && r.said == "" && r.toneLastUsed == -1 &&
            r.guard == s.guard && r.firstAdvice == s.firstAdvice && r.tone == s.tone && r.known == s.known
    ensures Consistent(o.session)
    ensures o.LoadAborted? ==> o.session.topics == [] && o.session.facts == s.facts
    ensures o.Opened? ==>
              o.session.facts == facts &&
              o.session.topics == Catalog.TellMeAbout(host.tellMeAbout, o.session.entries, s.known,
                                                      Screen(o.session.entries, facts, draws))
  {
    var loaded := TopicTable.LoadTopics(asset, host.macros);
    var s1 := s.(responded := {}, copied := [], lines := [Line(greeting, false)], said := "",
                 toneLastUsed := -1, question := "", topics := [], entries := s.entries + loaded.entries);
    match loaded.failedLine
    case Some(line) => LoadAborted(s1, line)
    case None =>
      var s2 := s1.(facts := facts);
      Opened(SetListing(s2, Listing(s2, host, draws)))
  }

  /** `OnPop`: the notebook receives the copied lines in ascending order,
      separated where the indexes leave a gap; the copy list ends sorted
      and the custom topics are dropped. */
  function End(s: Session): (r: (seq<Note>, Session))
    requires CopiedInRange(s)
    ensures (forall i :: 0 <= i < |SortIndexes(s.copied)| ==> 0 <= SortIndexes(s.copied)[i] < |s.lines|) &&
            WithoutBlanks(r.0) == LinesAt(s.lines, SortIndexes(s.copied))
    ensures |r.0| == |s.copied| + Gaps(SortIndexes(s.copied))
    ensures Laid(r.0, s.lines, SortIndexes(s.copied))
    ensures r.1 == s.(copied := SortIndexes(s.copied), entries := [])
    ensures Consistent(s) ==> Consistent(r.1)
  {
    ExportContents(s.lines, s.copied);
    (Export(s.lines, s.copied), Closed(s))
  }

  /** The session `OnPop` leaves: the copy list sorted, the custom topics
      dropped. */
  function Closed(s: Session): (r: Session)
    requires CopiedInRange(s)
    ensures r == s.(copied := SortIndexes(s.copied), entries := [])
    ensures Consistent(s) ==> Consistent(r)
  {
    var sorted := SortIndexes(s.copied);
    assert forall i :: 0 <= i < |sorted| ==> sorted[i] in multiset(s.copied);
    assert NoDuplicates(s.copied) ==> NoDuplicates(sorted) by {
      if NoDuplicates(s.copied) {
        SortKeepsDistinct(s.copied);
      }
    }
    s.(copied := sorted, entries := [])
  }


  /** A tone button: pressing the tone already in use only records it;
      another tone re-asks the selected topic's question in that tone. */
  function SetTone(s: Session, host: Host, tone: Tone, adviceDraw: nat): (r: Session)
    ensures r == s.(tone := tone, toneLastUsed := ToneIndex(tone), question := r.question, said := r.said)
    ensures ToneIndex(tone) == s.toneLastUsed ==> r.question == s.question && r.said == s.said
    ensures ToneIndex(tone) != s.toneLastUsed && 0 <= s.selected < |s.topics| ==>
              r.question == r.said == QuestionFor(host, s.topics[s.selected], tone, s.firstAdvice, adviceDraw)
  {
    var s1 := s.(tone := tone);
    if ToneIndex(tone) == s.toneLastUsed then s1
    else UpdateQuestion(s1.(toneLastUsed := ToneIndex(tone)), host, s.selected, adviceDraw)
  }

  /** Pressing the same tone button twice is the same as pressing it once. */
  lemma SetToneTwice(s: Session, host: Host, tone: Tone, draw: nat, again: nat)
    ensures SetTone(SetTone(s, host, tone, draw), host, tone, again) == SetTone(s, host, tone, draw)
  {
  }

  /** The logbook button on conversation line `line` (-1 when none is
      selected). */
  function Logbook(s: Session, line: int): (r: Session)
    requires line < |s.lines|
    ensures r == s.(copied := ToggleCopy(s.copied, line))
    ensures Consistent(s) ==> Consistent(r)
  {
    if NoDuplicates(s.copied) then ToggleFlips(s.copied, line); s.(copied := ToggleCopy(s.copied, line))
    else s.(copied := ToggleCopy(s.copied, line))
  }

  /** The logbook button's right click: every line of the conversation. */
  function LogbookAll(s: Session): (r: Session)
    ensures r == s.(copied := r.copied)
    ensures Consistent(r)
    ensures forall x :: x in r.copied <==> 0 <= x < |s.lines|
  {
    var all := CopyAll(|s.lines|);
    assert forall x :: x in all <==> 0 <= x < |s.lines| by {
      forall x | 0 <= x < |s.lines| ensures x in all {
        assert all[x] == x;
      }
    }
    s.(copied := all)
  }

  /** The copy list stays consistent across every user action. */
  lemma SelectKeepsConsistent(s: Session, host: Host, index: int, force: bool, draws: Draws)
    requires draws.InRange() && Consistent(s)
    ensures Consistent(SelectTopic(s, host, index, force, draws))
  {
    SelectKeepsTranscript(s, host, index, force, draws);
  }

  /** Closing the window drops the custom topics, so reopening it loads the
      topic table once; reopening without closing appends the table's
      topics a second time. */
  lemma ReopenLoads(s: Session, host: Host, greeting: string, asset: Option<string>, facts: Conditions.Facts, draws: Draws)
    requires draws.InRange() && CopiedInRange(s)
    ensures Start(End(s).1, host, greeting, asset, facts, draws).session.entries ==
              TopicTable.LoadTopics(asset, host.macros).entries
    ensures var again := Start(Start(s, host, greeting, asset, facts, draws).session, host, greeting, asset, facts, draws);
            var loaded := TopicTable.LoadTopics(asset, host.macros).entries;
            again.session.entries == s.entries + loaded + loaded
  {
  }
}
