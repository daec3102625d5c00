/**
 The conversation transcript and its export to the player's notebook.

 The logbook button toggles the selected conversation line in the list of
 copied line indexes; a right click copies every line. When the window
 closes (`OnPop`) the copied indexes are sorted and each copied line becomes
 a notebook entry, formatted as a question or an answer; a blank token goes
 before every entry whose index does not directly follow the previous one.
 */
module Transcript {
  import opened Sorting

  /** A line of the conversation list: the text and whether it is drawn in
      the question colour. */
  datatype Line = Line(text: string, isQuestion: bool)

  /** A notebook token: a blank separator or a copied line. */
  datatype Note = Blank | Entry(text: string, isQuestion: bool)

  /** The position of the first occurrence of `x`. */
  function IndexOf(xs: seq<int>, x: int): (i: nat)
    requires x in xs
    ensures i < |xs| && xs[i] == x && x !in xs[..i]
  {
    if xs[0] == x then 0 else 1 + IndexOf(xs[1..], x)
  }

  /** `copyIndexes.Remove(x)`: drops the first occurrence of `x`, if any. */
  function RemoveFirst(xs: seq<int>, x: int): seq<int> {
    if x in xs then xs[..IndexOf(xs, x)] + xs[IndexOf(xs, x) + 1..] else xs
  }

  predicate NoDuplicates(xs: seq<int>) {
    forall i, j :: 0 <= i < j < |xs| ==> xs[i] != xs[j]
  }

  /** Removing position `i` keeps the elements before it and shifts the
      later ones down by one. */
  lemma RemovedAt(xs: seq<int>, i: nat, r: seq<int>)
    requires i < |xs| && r == xs[..i] + xs[i + 1..]
    ensures |r| == |xs| - 1
    ensures forall k :: 0 <= k < i ==> r[k] == xs[k]
    ensures forall k :: i <= k < |r| ==> r[k] == xs[k + 1]
  {
  }

  /** What is left after removing position `i` came from `xs`, and only
      the element at `i` is gone. */
  lemma RemovedMembers(xs: seq<int>, i: nat, r: seq<int>)
    requires NoDuplicates(xs) && i < |xs| && r == xs[..i] + xs[i + 1..]
    ensures forall y :: y in r <==> y in xs && y != xs[i]
  {
    RemovedAt(xs, i, r);
    forall y | y in r ensures y in xs && y != xs[i] {
      var k :| 0 <= k < |r| && r[k] == y;
      if k < i { assert xs[k] == y; } else { assert xs[k + 1] == y; }
    }
    forall y | y in xs && y != xs[i] ensures y in r {
      var k :| 0 <= k < |xs| && xs[k] == y;
      if k < i { assert r[k] == y; } else { assert r[k - 1] == y; }
    }
  }

  /** Removing a position keeps a list free of duplicates. */
  lemma RemovedDistinct(xs: seq<int>, i: nat, r: seq<int>)
    requires NoDuplicates(xs) && i < |xs| && r == xs[..i] + xs[i + 1..]
    ensures NoDuplicates(r)
  {
    RemovedAt(xs, i, r);
    forall a, b | 0 <= a < b < |r| ensures r[a] != r[b] {
      var a', b' := if a < i then a else a + 1, if b < i then b else b + 1;
      assert r[a] == xs[a'] && r[b] == xs[b'];
    }
  }

  /** Without duplicates, removing `x` leaves exactly the other elements. */
  lemma RemoveFirstMembers(xs: seq<int>, x: int)
    requires NoDuplicates(xs)
    ensures NoDuplicates(RemoveFirst(xs, x))
    ensures forall y :: y in RemoveFirst(xs, x) <==> y in xs && y != x
  {
    if x in xs {
      var i := IndexOf(xs, x);
      var r := RemoveFirst(xs, x);
      RemovedMembers(xs, i, r);
      RemovedDistinct(xs, i, r);
    }
  }

  /** `ButtonLogbook_OnMouseClick` with the conversation's selected index. */
  function ToggleCopy(copied: seq<int>, selected: int): seq<int> {
    if selected < 0 then copied
    else if selected !in copied then copied + [selected]
    else RemoveFirst(copied, selected)
  }

  /** Toggling flips whether the selected line is copied, leaves every other
      line as it was and keeps the list free of duplicates; a negative
      selection (nothing selected) changes nothing. */
  lemma ToggleFlips(copied: seq<int>, selected: int)
    requires NoDuplicates(copied)
    ensures selected < 0 ==> ToggleCopy(copied, selected) == copied
    ensures selected >= 0 ==> NoDuplicates(ToggleCopy(copied, selected))
    ensures selected >= 0 ==>
              forall x :: x in ToggleCopy(copied, selected) <==>
                            (if x == selected then selected !in copied else x in copied)
  {
    if selected >= 0 {
      if selected in copied {
        RemoveFirstMembers(copied, selected);
      } else {
        var r := copied + [selected];
        assert forall x :: x in r <==> x in copied || x == selected;
      }
    }
  }

  /** Pressing the logbook button twice on the same line restores the copy list. */
  lemma ToggleTwice(copied: seq<int>, selected: int)
    requires selected >= 0 && selected !in copied
    ensures ToggleCopy(ToggleCopy(copied, selected), selected) == copied
  {
    var once := copied + [selected];
    assert selected in once;
    var i := IndexOf(once, selected);
    assert i == |copied|;
    assert once[..i] == copied;
  }

  /** `ButtonLogbook_OnRightMouseClick`: every line of the conversation. */
  function CopyAll(count: nat): (r: seq<int>)
    ensures |r| == count
    ensures forall i :: 0 <= i < count ==> r[i] == i
  {
    if count == 0 then [] else CopyAll(count - 1) + [count - 1]
  }

  predicate IntLe(a: int, b: int) {
    a <= b
  }

  /** `List<int>.Sort()`: the copied indexes in ascending order. */
  function SortIndexes(copied: seq<int>): (r: seq<int>)
    ensures multiset(r) == multiset(copied) && |r| == |copied|
    ensures forall i, j :: 0 <= i < j < |r| ==> r[i] <= r[j]
  {
    assert Total(IntLe) && Transitive(IntLe);
    var r := Sort(copied, IntLe);
    assert SortedBy(r, IntLe);
    r
  }

  /** A value at two positions occurs at least twice. */
  lemma TwiceCounted(xs: seq<int>, i: nat, j: nat)
    requires i < j < |xs| && xs[i] == xs[j]
    ensures multiset(xs)[xs[i]] >= 2
  {
    assert xs == xs[..j] + [xs[j]] + xs[j + 1..];
    assert xs[i] in multiset(xs[..j]) by {
      assert xs[..j][i] == xs[i];
    }
  }

  /** A value occurs at most once in a list without duplicates. */
  lemma {:induction false} CountedOnce(xs: seq<int>, x: int)
    requires NoDuplicates(xs)
    ensures multiset(xs)[x] <= 1
  {
    if |xs| > 0 {
      assert NoDuplicates(xs[1..]) by {
        forall i, j | 0 <= i < j < |xs[1..]| ensures xs[1..][i] != xs[1..][j] {
          assert xs[1..][i] == xs[i + 1] && xs[1..][j] == xs[j + 1];
        }
      }
      CountedOnce(xs[1..], x);
      assert xs == [xs[0]] + xs[1..];
      if xs[0] == x {
        assert x !in xs[1..] by {
          forall k | 0 <= k < |xs[1..]| ensures xs[1..][k] != x {
            assert xs[1..][k] == xs[k + 1];
          }
        }
      }
    }
  }

  /** Sorting the copied indexes keeps them free of duplicates. */
  lemma SortKeepsDistinct(xs: seq<int>)
    requires NoDuplicates(xs)
    ensures NoDuplicates(SortIndexes(xs))
  {
    var r := SortIndexes(xs);
    forall i, j | 0 <= i < j < |r| ensures r[i] != r[j] {
      if r[i] == r[j] {
        TwiceCounted(r, i, j);
        CountedOnce(xs, r[i]);
      }
    }
  }

  function NoteOf(line: Line): Note {
    Entry(line.text, line.isQuestion)
  }

  /** The loop of `OnPop` over sorted indexes, `prev` being the index before. */
  function NotesFrom(lines: seq<Line>, indexes: seq<int>, prev: int): seq<Note>
    requires forall i :: 0 <= i < |indexes| ==> 0 <= indexes[i] < |lines|
  {
    if |indexes| == 0 then []
    else
      var idx := indexes[0];
      var gap := if idx - prev != 1 && prev > -1 then [Blank] else [];
      gap + [NoteOf(lines[idx])] + NotesFrom(lines, indexes[1..], idx)
  }

  /** The notebook tokens `OnPop` sends. */
  function Export(lines: seq<Line>, copied: seq<int>): (r: seq<Note>)
    requires forall i :: 0 <= i < |copied| ==> 0 <= copied[i] < |lines|
  {
    var sorted := SortIndexes(copied);
    assert forall i :: 0 <= i < |sorted| ==> sorted[i] in multiset(copied);
    NotesFrom(lines, sorted, -1)
  }

  /** The number of places where an index does not directly follow the one
      before it. */
  function Gaps(indexes: seq<int>): nat {
    if |indexes| <= 1 then 0
    else (if indexes[1] - indexes[0] != 1 then 1 else 0) + Gaps(indexes[1..])
  }

  /** The entries of an export without its separators. */
  function WithoutBlanks(notes: seq<Note>): (r: seq<Note>)
    ensures forall i :: 0 <= i < |r| ==> r[i].Entry?
  {
    if |notes| == 0 then []
    else (if notes[0].Blank? then [] else [notes[0]]) + WithoutBlanks(notes[1..])
  }

  /** The lines at the given indexes, as notebook entries. */
  function LinesAt(lines: seq<Line>, indexes: seq<int>): (r: seq<Note>)
    requires forall i :: 0 <= i < |indexes| ==> 0 <= indexes[i] < |lines|
    ensures |r| == |indexes|
    ensures forall i :: 0 <= i < |indexes| ==> r[i] == NoteOf(lines[indexes[i]])
  {
    if |indexes| == 0 then [] else [NoteOf(lines[indexes[0]])] + LinesAt(lines, indexes[1..])
  }

  /** The export holds exactly the copied lines, in ascending index order,
      with separators between them and nothing else. */
  lemma {:induction false} NotesFromEntries(lines: seq<Line>, indexes: seq<int>, prev: int)
    requires forall i :: 0 <= i < |indexes| ==> 0 <= indexes[i] < |lines|
    ensures WithoutBlanks(NotesFrom(lines, indexes, prev)) == LinesAt(lines, indexes)
  {
    if |indexes| > 0 {
      var idx := indexes[0];
      var gap: seq<Note> := if idx - prev != 1 && prev > -1 then [Blank] else [];
      var note := NoteOf(lines[idx]);
      var rest := NotesFrom(lines, indexes[1..], idx);
      NotesFromEntries(lines, indexes[1..], idx);
      assert ([note] + rest)[1..] == rest;
      assert WithoutBlanks([note] + rest) == [note] + WithoutBlanks(rest);
      if |gap| == 1 {
        assert (gap + [note] + rest)[1..] == [note] + rest;
      } else {
        assert gap + [note] + rest == [note] + rest;
      }
    }
  }

  /** One separator per gap: the export is as long as the copied indexes
      plus the gaps between them. */
  lemma {:induction false} NotesFromLength(lines: seq<Line>, indexes: seq<int>, prev: int)
    requires forall i :: 0 <= i < |indexes| ==> 0 <= indexes[i] < |lines|
    requires prev >= 0 || prev == -1
    ensures |NotesFrom(lines, indexes, prev)| ==
              |indexes| + Gaps(indexes) + (if |indexes| > 0 && prev > -1 && indexes[0] - prev != 1 then 1 else 0)
  {
    if |indexes| > 0 {
      NotesFromLength(lines, indexes[1..], indexes[0]);
      if |indexes| > 1 {
        assert indexes[1..][0] == indexes[1];
      }
    }
  }

  /** Index `k` does not directly follow the index before it. */
  predicate GapAt(indexes: seq<int>, k: nat)
    requires 0 < k < |indexes|
  {
    indexes[k] - indexes[k - 1] != 1
  }

  /** The number of gaps among the first `k + 1` indexes. */
  function GapsUpTo(indexes: seq<int>, k: nat): nat
    requires k < |indexes|
  {
    if k == 0 then 0 else GapsUpTo(indexes, k - 1) + (if GapAt(indexes, k) then 1 else 0)
  }

  /** Where the entry of index `k` lands in an export: after the `k` entries
      before it and one separator for each gap up to it. */
  function EntryPos(indexes: seq<int>, k: nat): nat
    requires k < |indexes|
  {
    k + GapsUpTo(indexes, k)
  }

  /** `notes` is the export of `lines` at the ascending `indexes`: the entry
      of index `k` sits at `EntryPos(indexes, k)`, the last entry ends the
      export, and a position holds a separator exactly when it directly
      precedes the entry of an index that does not follow the one before. */
  predicate Laid(notes: seq<Note>, lines: seq<Line>, indexes: seq<int>)
    requires forall i :: 0 <= i < |indexes| ==> 0 <= indexes[i] < |lines|
  {
    && |notes| == (if |indexes| == 0 then 0 else EntryPos(indexes, |indexes| - 1) + 1)
    && (forall k :: 0 <= k < |indexes| ==>
          EntryPos(indexes, k) < |notes| && notes[EntryPos(indexes, k)] == NoteOf(lines[indexes[k]]))
    && (forall p :: 0 <= p < |notes| ==>
          (notes[p].Blank? <==>
             exists k :: 0 < k < |indexes| && GapAt(indexes, k) && p == EntryPos(indexes, k) - 1))
  }

  /** Counting gaps from the second index on: the first gap, if any, and
      the gaps of the rest. */
  lemma {:induction false} GapsUpToTail(indexes: seq<int>, k: nat)
    requires 1 <= k < |indexes|
    ensures GapsUpTo(indexes, k) == (if GapAt(indexes, 1) then 1 else 0) + GapsUpTo(indexes[1..], k - 1)
  {
    if k > 1 {
      GapsUpToTail(indexes, k - 1);
      assert GapAt(indexes, k) == GapAt(indexes[1..], k - 1);
    }
  }

  /** Entries move forward by at least one position per index. */
  lemma {:induction false} EntryPosGrows(indexes: seq<int>, i: nat, j: nat)
    requires i <= j < |indexes|
    ensures EntryPos(indexes, j) - EntryPos(indexes, i) >= j - i
  {
    if i < j {
      EntryPosGrows(indexes, i, j - 1);
    }
  }

  /** Every position up to the last entry lies at or just before some entry,
      past the entry before that. */
  lemma Locate(indexes: seq<int>, p: nat) returns (k: nat)
    requires 0 < |indexes| && p <= EntryPos(indexes, |indexes| - 1)
    ensures k < |indexes| && p <= EntryPos(indexes, k)
    ensures k == 0 || EntryPos(indexes, k - 1) < p
  {
    k := |indexes| - 1;
    while k > 0 && EntryPos(indexes, k - 1) >= p
      invariant k < |indexes| && p <= EntryPos(indexes, k)
    {
      k := k - 1;
    }
  }

  /** The separator `NotesFrom` puts first when `prev` leaves a gap. */
  function Lead(indexes: seq<int>, prev: int): nat {
    if |indexes| > 0 && prev > -1 && indexes[0] - prev != 1 then 1 else 0
  }

  /** Entry positions of `indexes` are those of its tail, shifted past the
      first entry and the separator before the tail's first entry. */
  lemma EntryPosShift(indexes: seq<int>, k: nat)
    requires 1 <= k < |indexes| && indexes[0] > -1
    ensures EntryPos(indexes, k) == 1 + Lead(indexes[1..], indexes[0]) + EntryPos(indexes[1..], k - 1)
    ensures k > 1 ==> GapAt(indexes, k) == GapAt(indexes[1..], k - 1)
  {
    GapsUpToTail(indexes, k);
  }

  /** `NotesFrom` ends with the entry of the last index. */
  lemma {:induction false} NotesFromEnds(lines: seq<Line>, indexes: seq<int>, prev: int)
    requires forall i :: 0 <= i < |indexes| ==> 0 <= indexes[i] < |lines|
    ensures |NotesFrom(lines, indexes, prev)| ==
              if |indexes| == 0 then 0 else Lead(indexes, prev) + EntryPos(indexes, |indexes| - 1) + 1
  {
    if |indexes| > 1 {
      NotesFromEnds(lines, indexes[1..], indexes[0]);
      EntryPosShift(indexes, |indexes| - 1);
    }
  }

  /** The entry of index `k` sits at `EntryPos(indexes, k)`, after the lead. */
  lemma {:induction false} NotesFromEntryAt(lines: seq<Line>, indexes: seq<int>, prev: int, k: nat)
    requires forall i :: 0 <= i < |indexes| ==> 0 <= indexes[i] < |lines|
    requires k < |indexes|
    ensures Lead(indexes, prev) + EntryPos(indexes, k) < |NotesFrom(lines, indexes, prev)|
    ensures NotesFrom(lines, indexes, prev)[Lead(indexes, prev) + EntryPos(indexes, k)] == NoteOf(lines[indexes[k]])
  {
    var r := NotesFrom(lines, indexes, prev);
    var lead := Lead(indexes, prev);
    var rest := NotesFrom(lines, indexes[1..], indexes[0]);
    if k > 0 {
      NotesFromEntryAt(lines, indexes[1..], indexes[0], k - 1);
      EntryPosShift(indexes, k);
      assert r[lead + 1 + Lead(indexes[1..], indexes[0]) + EntryPos(indexes[1..], k - 1)]
          == rest[Lead(indexes[1..], indexes[0]) + EntryPos(indexes[1..], k - 1)];
    }
  }

  /** A separator directly precedes the entry of every index that leaves a
      gap, and starts the output when `prev` leaves one. */
  lemma {:induction false} NotesFromBlankAt(lines: seq<Line>, indexes: seq<int>, prev: int, k: nat)
    requires forall i :: 0 <= i < |indexes| ==> 0 <= indexes[i] < |lines|
    requires k < |indexes| && (if k == 0 then Lead(indexes, prev) == 1 else GapAt(indexes, k))
    ensures 0 <= Lead(indexes, prev) + EntryPos(indexes, k) - 1 < |NotesFrom(lines, indexes, prev)|
    ensures NotesFrom(lines, indexes, prev)[Lead(indexes, prev) + EntryPos(indexes, k) - 1] == Blank
  {
    var r := NotesFrom(lines, indexes, prev);
    var lead := Lead(indexes, prev);
    var rest := NotesFrom(lines, indexes[1..], indexes[0]);
    if k > 0 {
      EntryPosShift(indexes, k);
      NotesFromBlankAt(lines, indexes[1..], indexes[0], k - 1);
      assert r[lead + 1 + Lead(indexes[1..], indexes[0]) + EntryPos(indexes[1..], k - 1) - 1]
          == rest[Lead(indexes[1..], indexes[0]) + EntryPos(indexes[1..], k - 1) - 1];
    }
  }

  /** No entry position directly precedes the entry of an index that leaves
      a gap. */
  lemma EntryNotBeforeGap(indexes: seq<int>, k: nat, j: nat)
    requires k < |indexes| && 0 < j < |indexes| && GapAt(indexes, j)
    ensures EntryPos(indexes, k) != EntryPos(indexes, j) - 1
  {
    if j <= k {
      EntryPosGrows(indexes, j, k);
    } else {
      EntryPosGrows(indexes, k, j - 1);
    }
  }

  /** A position strictly between two neighbouring entries is the separator
      before the second, which leaves a gap. */
  lemma BetweenEntries(indexes: seq<int>, k: nat, p: nat)
    requires 0 < k < |indexes| && EntryPos(indexes, k - 1) < p < EntryPos(indexes, k)
    ensures GapAt(indexes, k) && p == EntryPos(indexes, k) - 1
  {
  }

  /** In a laid-out export, a separator only ever directly precedes the
      entry of an index that leaves a gap. */
  lemma BlankOnlyAtGap(notes: seq<Note>, lines: seq<Line>, indexes: seq<int>, p: nat) returns (k: nat)
    requires forall i :: 0 <= i < |indexes| ==> 0 <= indexes[i] < |lines|
    requires 0 < |indexes| && p < |notes| == EntryPos(indexes, |indexes| - 1) + 1
    requires forall k :: 0 <= k < |indexes| ==>
               EntryPos(indexes, k) < |notes| && notes[EntryPos(indexes, k)] == NoteOf(lines[indexes[k]])
    requires notes[p].Blank?
    ensures 0 < k < |indexes| && GapAt(indexes, k) && p == EntryPos(indexes, k) - 1
  {
    k := Locate(indexes, p);
    assert notes[EntryPos(indexes, k)].Entry?;
    BetweenEntries(indexes, k, p);
  }

  /** A position of a laid-out export holds a separator exactly when it
      directly precedes the entry of an index that leaves a gap. */
  lemma BlankAtGap(notes: seq<Note>, lines: seq<Line>, indexes: seq<int>, p: nat)
    requires forall i :: 0 <= i < |indexes| ==> 0 <= indexes[i] < |lines|
    requires 0 < |indexes| && p < |notes| == EntryPos(indexes, |indexes| - 1) + 1
    requires forall k :: 0 <= k < |indexes| ==>
               EntryPos(indexes, k) < |notes| && notes[EntryPos(indexes, k)] == NoteOf(lines[indexes[k]])
    requires forall k :: 0 < k < |indexes| && GapAt(indexes, k) ==>
               0 < EntryPos(indexes, k) && notes[EntryPos(indexes, k) - 1] == Blank
    ensures notes[p].Blank? <==> exists k :: 0 < k < |indexes| && GapAt(indexes, k) && p == EntryPos(indexes, k) - 1
  {
    if notes[p].Blank? {
      var k := BlankOnlyAtGap(notes, lines, indexes, p);
    }
  }

  /** Entries at their positions, a separator before every gap and nothing
      after the last entry make an export laid out as `Laid` says. */
  lemma LaidByPlaces(notes: seq<Note>, lines: seq<Line>, indexes: seq<int>)
    requires forall i :: 0 <= i < |indexes| ==> 0 <= indexes[i] < |lines|
    requires |notes| == (if |indexes| == 0 then 0 else EntryPos(indexes, |indexes| - 1) + 1)
    requires forall k :: 0 <= k < |indexes| ==>
               EntryPos(indexes, k) < |notes| && notes[EntryPos(indexes, k)] == NoteOf(lines[indexes[k]])
    requires forall k :: 0 < k < |indexes| && GapAt(indexes, k) ==>
               0 < EntryPos(indexes, k) && notes[EntryPos(indexes, k) - 1] == Blank
    ensures Laid(notes, lines, indexes)
  {
    forall p | 0 <= p < |notes|
      ensures notes[p].Blank? <==> exists k :: 0 < k < |indexes| && GapAt(indexes, k) && p == EntryPos(indexes, k) - 1
    {
      BlankAtGap(notes, lines, indexes, p);
    }
  }

  /** Every entry of an export sits at its position. */
  lemma EntriesPlaced(lines: seq<Line>, indexes: seq<int>)
    requires forall i :: 0 <= i < |indexes| ==> 0 <= indexes[i] < |lines|
    ensures forall k :: 0 <= k < |indexes| ==>
              EntryPos(indexes, k) < |NotesFrom(lines, indexes, -1)| &&
              NotesFrom(lines, indexes, -1)[EntryPos(indexes, k)] == NoteOf(lines[indexes[k]])
  {
    forall k | 0 <= k < |indexes|
      ensures EntryPos(indexes, k) < |NotesFrom(lines, indexes, -1)|
      ensures NotesFrom(lines, indexes, -1)[EntryPos(indexes, k)] == NoteOf(lines[indexes[k]])
    {
      NotesFromEntryAt(lines, indexes, -1, k);
    }
  }

  /** A separator directly precedes the entry of every index that leaves a gap. */
  lemma BlanksPlaced(lines: seq<Line>, indexes: seq<int>)
    requires forall i :: 0 <= i < |indexes| ==> 0 <= indexes[i] < |lines|
    ensures forall k :: 0 < k < |indexes| && GapAt(indexes, k) ==>
              0 < EntryPos(indexes, k) <= |NotesFrom(lines, indexes, -1)| &&
              NotesFrom(lines, indexes, -1)[EntryPos(indexes, k) - 1] == Blank
  {
    forall k | 0 < k < |indexes| && GapAt(indexes, k)
      ensures 0 < EntryPos(indexes, k) <= |NotesFrom(lines, indexes, -1)| &&
              NotesFrom(lines, indexes, -1)[EntryPos(indexes, k) - 1] == Blank
    {
      NotesFromBlankAt(lines, indexes, -1, k);
    }
  }

  /** The export `NotesFrom` builds from the start is laid out as `Laid` says. */
  lemma NotesFromLaid(lines: seq<Line>, indexes: seq<int>)
    requires forall i :: 0 <= i < |indexes| ==> 0 <= indexes[i] < |lines|
    ensures Laid(NotesFrom(lines, indexes, -1), lines, indexes)
  {
    NotesFromEnds(lines, indexes, -1);
    EntriesPlaced(lines, indexes);
    BlanksPlaced(lines, indexes);
    LaidByPlaces(NotesFrom(lines, indexes, -1), lines, indexes);
  }

  /** The notebook receives the copied lines in ascending index order,
      separated where the indexes leave a gap. */
  lemma ExportContents(lines: seq<Line>, copied: seq<int>)
    requires forall i :: 0 <= i < |copied| ==> 0 <= copied[i] < |lines|
    ensures forall i :: 0 <= i < |SortIndexes(copied)| ==> 0 <= SortIndexes(copied)[i] < |lines|
    ensures WithoutBlanks(Export(lines, copied)) == LinesAt(lines, SortIndexes(copied))
    ensures |Export(lines, copied)| == |copied| + Gaps(SortIndexes(copied))
    ensures Laid(Export(lines, copied), lines, SortIndexes(copied))
  {
    var sorted := SortIndexes(copied);
    assert forall i :: 0 <= i < |sorted| ==> sorted[i] in multiset(copied);
    NotesFromEntries(lines, sorted, -1);
    NotesFromLength(lines, sorted, -1);
    NotesFromLaid(lines, sorted);
  }
}
