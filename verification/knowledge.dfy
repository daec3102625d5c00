/**
 The save-wide set of known captions (`knownCaptions`) and the captions a
 custom topic's answer unlocks.

 A custom topic is offered only when its lower-cased caption is known. The
 set starts out holding "any advice?". A custom topic's `AddCaption`
 column holds one `,`-separated list of captions per answer variant, the
 lists separated by `|`; answering with variant `sel` unlocks the trimmed,
 lower-cased captions of list `sel`, if there is one.
 */
module Knowledge {
  import opened Text

  const AnyAdvice: string := "any advice?"

  /** `knownCaptions` before anything is unlocked. */
  const InitialKnown: set<string> := {AnyAdvice}

  function LowerTrimmed(parts: seq<string>): (r: seq<string>)
    ensures |r| == |parts|
    ensures forall k :: 0 <= k < |parts| ==> r[k] == ToLower(Trim(parts[k]))
  {
    if |parts| == 0 then [] else [ToLower(Trim(parts[0]))] + LowerTrimmed(parts[1..])
  }

  /** The captions answer variant `sel` unlocks: list `sel` of the
      `|`-separated non-empty lists in `addCaption`, trimmed and split on
      `,` into non-empty pieces, each trimmed and lower-cased. */
  function CaptionsFor(addCaption: string, sel: nat): seq<string> {
    var lists := SplitNonEmpty(addCaption, '|');
    if sel < |lists| then LowerTrimmed(SplitNonEmpty(Trim(lists[sel]), ',')) else []
  }

  /** Adds the captions not yet known, one by one; `changed` reports whether
      any was new (`topicsUpdated`). */
  function Unlock(known: set<string>, captions: seq<string>): (r: (set<string>, bool))
    ensures r.0 == known + set c | c in captions
    ensures r.1 <==> exists c :: c in captions && c !in known
    decreases |captions|
  {
    if |captions| == 0 then (known, false)
    else
      var c := captions[0];
      var rest := Unlock(if c in known then known else known + {c}, captions[1..]);
      assert forall x :: x in captions <==> x == c || x in captions[1..];
      (rest.0, c !in known || rest.1)
  }

  /** Unlocking the same captions again changes nothing. */
  lemma UnlockIdempotent(known: set<string>, captions: seq<string>)
    ensures Unlock(Unlock(known, captions).0, captions) == (Unlock(known, captions).0, false)
  {
  }

  /** What an `AddCaption` column looks like when written from lists of
      captions. */
  function WriteAddCaption(lists: seq<seq<string>>): string
    requires |lists| >= 1 && forall i :: 0 <= i < |lists| ==> |lists[i]| >= 1
  {
    Join(JoinEach(lists), '|')
  }

  function JoinEach(lists: seq<seq<string>>): (r: seq<string>)
    requires forall i :: 0 <= i < |lists| ==> |lists[i]| >= 1
    ensures |r| == |lists|
    ensures forall i :: 0 <= i < |lists| ==> r[i] == Join(lists[i], ',')
  {
    if |lists| == 0 then [] else [Join(lists[0], ',')] + JoinEach(lists[1..])
  }

  /** A caption that survives the column's splitting and trimming as it is. */
  predicate PlainCaption(c: string) {
    |c| > 0 && ',' !in c && '|' !in c && !IsWhiteSpace(c[0]) && !IsWhiteSpace(c[|c| - 1])
  }

  /** Reading back a written `AddCaption` column: variant `sel` unlocks the
      lower-cased captions of list `sel`, and a variant past the last list
      unlocks nothing. */
  lemma CaptionsForWritten(lists: seq<seq<string>>, sel: nat)
    requires |lists| >= 1 && forall i :: 0 <= i < |lists| ==> |lists[i]| >= 1
    requires forall i, j :: 0 <= i < |lists| && 0 <= j < |lists[i]| ==> PlainCaption(lists[i][j])
    ensures CaptionsFor(WriteAddCaption(lists), sel) ==
              if sel < |lists| then LowerTrimmed(lists[sel]) else []
  {
    var joined := JoinEach(lists);
    forall i | 0 <= i < |lists|
      ensures '|' !in joined[i] && |joined[i]| > 0
      ensures !IsWhiteSpace(joined[i][0]) && !IsWhiteSpace(joined[i][|joined[i]| - 1])
    {
      var l := lists[i];
      JoinAvoids(l, ',', '|');
      JoinStarts(l, ',');
      JoinFinishes(l, ',');
      assert PlainCaption(l[0]) && PlainCaption(l[|l| - 1]);
      assert joined[i][0] == l[0][0];
    }
    SplitJoin(joined, '|');
    NonEmptyKeepsAll(joined);
    assert SplitNonEmpty(WriteAddCaption(lists), '|') == joined;
    if sel < |lists| {
      var l := lists[sel];
      TrimKeeps(joined[sel]);
      SplitJoin(l, ',');
      NonEmptyKeepsAll(l);
      assert SplitNonEmpty(Trim(joined[sel]), ',') == l;
    }
  }
}
