/** The roulette's entry list: records with an identifier, a name and a palette colour, the
    palette and the cap, and the two list operations (add and delete) as functions from the
    old list to the new one. */
module Entries {
  import opened JsString

  /** An identifier as generateId produces it; here it is supplied by the caller. */
  type Id = string

  datatype Item = Item(id: Id, name: string, color: string)

  /** The ten slice colours, in palette order. */
  const COLORS: seq<string> := [
    "#FF6B6B", "#4ECDC4", "#FFE66D", "#A78BFA", "#F472B6",
    "#FB923C", "#34D399", "#60A5FA", "#F87171", "#2DD4BF"
  ]

  /** The most entries the add operation lets the list hold. */
  const MAX_ITEMS: nat := 12

  /** The colour of the entry at position i: the palette cycles every |COLORS| entries. */
  function PaletteColour(i: nat): (c: string)
    ensures c in COLORS
  {
    COLORS[i % |COLORS|]
  }

  /** Entry i has colour PaletteColour(i). */
  predicate ColouredByPosition(s: seq<Item>) {
    forall i :: 0 <= i < |s| ==> s[i].color == PaletteColour(i)
  }

  /** The invariant of the entry list: coloured by position and no longer than the cap. */
  predicate WellFormed(s: seq<Item>) {
    |s| <= MAX_ITEMS && ColouredByPosition(s)
  }

  /** The four entries the page starts with, one fresh identifier each. */
  function InitialItems(ids: seq<Id>): (r: seq<Item>)
    requires |ids| == 4
    ensures |r| == 4 && WellFormed(r)
    ensures forall i :: 0 <= i < 4 ==> r[i].id == ids[i]
  {
    var r := [ Item(ids[0], "ランチ A", COLORS[0]),
               Item(ids[1], "ランチ B", COLORS[1]),
               Item(ids[2], "ランチ C", COLORS[2]),
               Item(ids[3], "ランチ D", COLORS[3]) ];
    assert forall i :: 0 <= i < 4 ==> i % |COLORS| == i;
    r
  }

  // ---------------------------------------------------------------------------
  // Add
  // ---------------------------------------------------------------------------

  /** How an add request ends: the entry is appended, or the request is dropped because the
      trimmed name is empty (the input only regains focus), or because the list is full
      (a notice is shown). */
  datatype AddOutcome = Added | EmptyName | ListFull

  /** The empty-name test comes first, then the cap. */
  function AddOutcomeOf(s: seq<Item>, input: string): (o: AddOutcome)
    ensures o == EmptyName <==> AllWhiteSpace(input)
    ensures o == ListFull <==> !AllWhiteSpace(input) && |s| >= MAX_ITEMS
  {
    if Trim(input) == [] then EmptyName
    else if |s| >= MAX_ITEMS then ListFull
    else Added
  }

  /** The list after an add request with the raw input text and a fresh identifier: the old
      list is always kept as a prefix, and exactly one entry is added when the add is accepted. */
  function AfterAdd(s: seq<Item>, input: string, id: Id): (r: seq<Item>)
    ensures s <= r
    ensures |r| == if AddOutcomeOf(s, input) == Added then |s| + 1 else |s|
  {
    if AddOutcomeOf(s, input) == Added then s + [Item(id, Trim(input), PaletteColour(|s|))]
    else s
  }

  /** A name that is empty after trimming leaves the list as it was. */
  lemma AddEmptyNameUnchanged(s: seq<Item>, input: string, id: Id)
    requires AllWhiteSpace(input)
    ensures AddOutcomeOf(s, input) == EmptyName
    ensures AfterAdd(s, input, id) == s
  {
  }

  /** A full list is left as it was. */
  lemma AddToFullListUnchanged(s: seq<Item>, input: string, id: Id)
    requires |s| >= MAX_ITEMS
    ensures AddOutcomeOf(s, input) != Added
    ensures AfterAdd(s, input, id) == s
  {
  }

  /** A successful add grows the list by exactly one entry at the end, carrying the trimmed
      (non-empty) name, the given identifier and the palette colour of its position; the
      earlier entries are untouched. */
  lemma AddAppendsOne(s: seq<Item>, input: string, id: Id)
    requires !AllWhiteSpace(input) && |s| < MAX_ITEMS
    ensures var r := AfterAdd(s, input, id);
            |r| == |s| + 1 && r[..|s|] == s
            && r[|s|] == Item(id, Trim(input), COLORS[|s| % |COLORS|])
            && r[|s|].name != [] && !IsWhiteSpace(r[|s|].name[0])
  {
  }

  /** Add keeps the list well formed: coloured by position and at most MAX_ITEMS long. */
  lemma AddPreservesWellFormed(s: seq<Item>, input: string, id: Id)
    requires WellFormed(s)
    ensures WellFormed(AfterAdd(s, input, id))
  {
    if AddOutcomeOf(s, input) == Added {
      var x := Item(id, Trim(input), PaletteColour(|s|));
      var r := s + [x];
      assert AfterAdd(s, input, id) == r;
      forall i | 0 <= i < |r| ensures r[i].color == PaletteColour(i) {
        if i < |s| { assert r[i] == s[i]; } else { assert r[i] == x; }
      }
    }
  }

  // ---------------------------------------------------------------------------
  // Delete
  // ---------------------------------------------------------------------------

  /** The entries whose identifier differs from id, in their original order (the filter step
      of a delete). */
  function WithoutId(s: seq<Item>, id: Id): (r: seq<Item>)
    ensures |r| <= |s|
    ensures forall k :: 0 <= k < |r| ==> r[k].id != id
  {
    if s == [] then []
    else if s[0].id == id then WithoutId(s[1..], id)
    else [s[0]] + WithoutId(s[1..], id)
  }

  /** An entry survives the filter exactly when it is in the list and its identifier differs. */
  lemma {:induction false} WithoutIdMembers(s: seq<Item>, id: Id, x: Item)
    ensures x in WithoutId(s, id) <==> x in s && x.id != id
  {
    if s != [] {
      WithoutIdMembers(s[1..], id, x);
      assert s == [s[0]] + s[1..];
    }
  }

  /** Filtering works entry by entry, so relative order is kept. */
  lemma {:induction false} WithoutIdAppend(a: seq<Item>, b: seq<Item>, id: Id)
    ensures WithoutId(a + b, id) == WithoutId(a, id) + WithoutId(b, id)
  {
    if a == [] {
      assert a + b == b;
    } else {
      assert (a + b)[0] == a[0] && (a + b)[1..] == a[1..] + b;
      WithoutIdAppend(a[1..], b, id);
    }
  }

  /** Deleting an identifier nobody has keeps every entry. */
  lemma {:induction false} WithoutIdAbsent(s: seq<Item>, id: Id)
    requires forall k :: 0 <= k < |s| ==> s[k].id != id
    ensures WithoutId(s, id) == s
  {
    if s != [] {
      WithoutIdAbsent(s[1..], id);
    }
  }

  /** Identifiers are pairwise distinct. */
  predicate UniqueIds(s: seq<Item>) {
    forall i, j :: 0 <= i < j < |s| ==> s[i].id != s[j].id
  }

  /** With distinct identifiers, deleting the identifier of entry k removes that entry and
      no other. */
  lemma {:induction false} WithoutIdUnique(s: seq<Item>, k: nat)
    requires UniqueIds(s) && k < |s|
    ensures WithoutId(s, s[k].id) == s[..k] + s[k + 1..]
  {
    var id, tail := s[k].id, s[1..];
    if k == 0 {
      forall j | 0 <= j < |tail| ensures tail[j].id != id {
        assert tail[j] == s[j + 1];
      }
      WithoutIdAbsent(tail, id);
    } else {
      assert UniqueIds(tail) by {
        forall i, j | 0 <= i < j < |tail| ensures tail[i].id != tail[j].id {
          assert tail[i] == s[i + 1] && tail[j] == s[j + 1];
        }
      }
      assert tail[k - 1] == s[k];
      WithoutIdUnique(tail, k - 1);
      assert s[0].id != id;
      assert [s[0]] + (tail[..k - 1] + tail[k..]) == s[..k] + s[k + 1..];
    }
  }

  /** The recolouring step of a delete: same entries, each given the colour of its position. */
  function Recoloured(s: seq<Item>): (r: seq<Item>)
    ensures |r| == |s| && ColouredByPosition(r)
    ensures forall i :: 0 <= i < |r| ==> r[i].id == s[i].id && r[i].name == s[i].name
  {
    seq(|s|, i requires 0 <= i < |s| => s[i].(color := PaletteColour(i)))
  }

  /** A list already coloured by position is unchanged by recolouring. */
  lemma RecolouredFixesColoured(s: seq<Item>)
    requires ColouredByPosition(s)
    ensures Recoloured(s) == s
  {
  }

  /** The list after deleting every entry with the given identifier: never longer, no entry
      left with that identifier, and coloured by position whatever the old colours were. */
  function AfterDelete(s: seq<Item>, id: Id): (r: seq<Item>)
    ensures |r| <= |s| && ColouredByPosition(r)
    ensures forall i :: 0 <= i < |r| ==> r[i].id != id
  {
    Recoloured(WithoutId(s, id))
  }

  /** After a delete, every survivor keeps its identifier and name, in the original relative
      order, no entry has the deleted identifier, and entry i has the colour of position i. */
  lemma DeleteKeepsSurvivors(s: seq<Item>, id: Id)
    ensures var r, f := AfterDelete(s, id), WithoutId(s, id);
            |r| == |f| && ColouredByPosition(r)
            && forall i :: 0 <= i < |r| ==> r[i].id == f[i].id && r[i].name == f[i].name && r[i].id != id
  {
  }

  /** Delete keeps the list well formed, for any identifier. */
  lemma DeletePreservesWellFormed(s: seq<Item>, id: Id)
    requires WellFormed(s)
    ensures WellFormed(AfterDelete(s, id)) && |AfterDelete(s, id)| <= |s|
  {
  }

  /** Deleting an identifier no entry has leaves a well-formed list exactly as it was. */
  lemma DeleteAbsentUnchanged(s: seq<Item>, id: Id)
    requires WellFormed(s)
    requires forall k :: 0 <= k < |s| ==> s[k].id != id
    ensures AfterDelete(s, id) == s
  {
    WithoutIdAbsent(s, id);
    RecolouredFixesColoured(s);
  }

  /** With distinct identifiers, deleting entry k shortens the list by one; entries before k
      stay as they were and entries after k move up one place, keeping id and name. */
  lemma DeleteUniqueRemovesOne(s: seq<Item>, k: nat)
    requires WellFormed(s) && UniqueIds(s) && k < |s|
    ensures var r := AfterDelete(s, s[k].id);
            |r| == |s| - 1
            && r[..k] == s[..k]
            && forall i :: k <= i < |r| ==> r[i].id == s[i + 1].id && r[i].name == s[i + 1].name
  {
    WithoutIdUnique(s, k);
    var f := s[..k] + s[k + 1..];
    var r := AfterDelete(s, s[k].id);
    forall i | 0 <= i < k ensures r[i] == s[i] {
      assert f[i] == s[i];
    }
    forall i | k <= i < |r| ensures r[i].id == s[i + 1].id && r[i].name == s[i + 1].name {
      assert f[i] == s[i + 1];
    }
  }
}
