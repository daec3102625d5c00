/**
 The topic data the dialogue engine works on: the entries of the talk
 window's topic lists (`TalkManager.ListItem`) and the custom dialogue topics
 read from the topic table (`DialogueListItem` with its `DialogueData`).
 */
module Topics {
  import opened Text
  import Conditions

  /** `TalkManager.ListItemType`. */
  datatype ItemKind = Item | ItemGroup | NavigationBack

  /** The `TalkManager.QuestionType` values the engine tells apart; every
      other question type is `OtherQuestion`. */
  datatype QuestionKind = OrganizationInfo | WhereAmI | News | Work | OtherQuestion

  /** One entry of a topic list. The host owns a forest of topic lists;
      `children` and `parent` name lists in it (`None` is a null reference).
      `entry` is `Some(k)` exactly for the list item of custom topic `k`:
      the window recognises custom items by reference, and the position of
      the topic in the table is that identity. */
  datatype TopicItem = TopicItem(
    kind: ItemKind,
    caption: string,
    question: QuestionKind,
    children: Option<nat>,
    parent: Option<nat>,
    entry: Option<nat>)
  {
    predicate IsCustom() {
      entry.Some?
    }
  }

  /** A custom topic: its table line number, caption, macro-expanded answer
      (`|`-separated variants), `AddCaption` column and its condition
      triples in slot order. */
  datatype Entry = Entry(
    line: nat,
    caption: string,
    answer: string,
    addCaption: string,
    conditions: seq<Conditions.Condition>)

  /** The key under which captions are known and responded: `caption.ToLower()`. */
  function Key(caption: string): string {
    ToLower(caption)
  }

  /** The list item the loader builds for custom topic `k`: a plain item whose
      question type is `OrganizationInfo`. */
  function EntryItem(entries: seq<Entry>, k: nat): TopicItem
    requires k < |entries|
  {
    TopicItem(Item, entries[k].caption, OrganizationInfo, None, None, Some(k))
  }

  /** What `ProcessAnswerWithMacros` returns when tokenising or expanding
      the macros throws. */
  const MacroError: string := "Error in macro expansion"

  /** `ProcessAnswerWithMacros`: the host's macro expander, which may fail. */
  function ExpandMacros(macros: string -> Option<string>, text: string): string {
    match macros(text)
    case None => MacroError
    case Some(expanded) => expanded
  }
}
