/** `list_versions_by_type`: keep the versions of one kind from the manifest, show them
    newest-last reversed in a paged list, and map the chosen row back to its version. */
module Versions {
  import Paging
  import Text

  /** One manifest entry as the launcher reads it: `v['id']` and `v['type']`. */
  datatype VersionEntry = VersionEntry(id: string, kind: string)

  /** The menu's version type and the manifest kind it selects. Any other type name
      selects nothing. */
  predicate Matches(versionType: string, kind: string) {
    || (versionType == "alpha" && kind == "old_alpha")
    || (versionType == "beta" && kind == "old_beta")
    || (versionType == "snapshot" && kind == "snapshot")
    || (versionType == "release" && kind == "release")
  }

  /** The filtering loop (Cobalt_Launcher_Nano_0.7_alpha.py:275-283): the matching
      entries, in manifest order. */
  function Filter(vs: seq<VersionEntry>, versionType: string): (r: seq<VersionEntry>)
    ensures |r| <= |vs|
    ensures forall v :: v in r <==> v in vs && Matches(versionType, v.kind)
  {
    if |vs| == 0 then []
    else
      var rest := Filter(vs[..|vs| - 1], versionType);
      assert forall v :: v in vs <==> v in vs[..|vs| - 1] || v == vs[|vs| - 1] by {
        assert vs == vs[..|vs| - 1] + [vs[|vs| - 1]];
      }
      if Matches(versionType, vs[|vs| - 1].kind) then rest + [vs[|vs| - 1]] else rest
  }

  /** Filtering distributes over concatenation, so it keeps manifest order. */
  lemma {:induction false} FilterAppend(a: seq<VersionEntry>, b: seq<VersionEntry>, t: string)
    ensures Filter(a + b, t) == Filter(a, t) + Filter(b, t)
    decreases |b|
  {
    if |b| == 0 {
      assert a + b == a;
    } else {
      var b' := b[..|b| - 1];
      assert (a + b)[..|a + b| - 1] == a + b';
      assert (a + b)[|a + b| - 1] == b[|b| - 1];
      FilterAppend(a, b', t);
    }
  }

  /** When every entry is of the requested kind, filtering keeps the whole manifest. */
  lemma {:induction false} FilterKeepsMatching(vs: seq<VersionEntry>, t: string)
    requires forall i :: 0 <= i < |vs| ==> Matches(t, vs[i].kind)
    ensures Filter(vs, t) == vs
  {
    if |vs| > 0 {
      FilterKeepsMatching(vs[..|vs| - 1], t);
      assert vs == vs[..|vs| - 1] + [vs[|vs| - 1]];
    }
  }

  /** A type name outside the four the menu offers selects no version. */
  lemma UnknownTypeSelectsNothing(vs: seq<VersionEntry>, t: string)
    requires t != "alpha" && t != "beta" && t != "snapshot" && t != "release"
    ensures Filter(vs, t) == []
  {
    if Filter(vs, t) != [] {
      assert Filter(vs, t)[0] in Filter(vs, t);
    }
  }

  /** `s[::-1]`. */
  function Reverse<T>(s: seq<T>): (r: seq<T>)
    ensures |r| == |s|
  {
    if |s| == 0 then [] else [s[|s| - 1]] + Reverse(s[..|s| - 1])
  }

  /** Position `i` of the reversed list holds position `|s| - 1 - i` of the original. */
  lemma {:induction false} ReverseIndex<T>(s: seq<T>, i: int)
    requires 0 <= i < |s|
    ensures Reverse(s)[i] == s[|s| - 1 - i]
    decreases |s|
  {
    if i > 0 {
      ReverseIndex(s[..|s| - 1], i - 1);
    }
  }

  /** The row text `f"{v['id']} ({v['type']})"`. */
  function Label(v: VersionEntry): string {
    v.id + " (" + v.kind + ")"
  }

  /** The rows handed to the paged list: the labels of the filtered entries, reversed. */
  function Rows(filtered: seq<VersionEntry>): (r: seq<string>)
    ensures |r| == |filtered|
  {
    Reverse(seq(|filtered|, i requires 0 <= i < |filtered| => Label(filtered[i])))
  }

  /** The row at position `i` is the label of the entry `filtered[len - 1 - i]`. */
  lemma RowIsLabel(filtered: seq<VersionEntry>, i: int)
    requires 0 <= i < |filtered|
    ensures Rows(filtered)[i] == Label(filtered[|filtered| - 1 - i])
  {
    ReverseIndex(seq(|filtered|, k requires 0 <= k < |filtered| => Label(filtered[k])), i);
  }

  /** The page size of the version list. */
  const PageSize: int := 15

  datatype Listing = NoVersionsOfType | NoneChosen | Selected(id: string) | StillBrowsing

  /** The paged list over the rows of a non-empty filtered list, and the chosen row
      mapped back through the reversal to the entry it shows. */
  function PickFrom(filtered: seq<VersionEntry>, choices: seq<string>): (r: Listing)
    requires |filtered| > 0
    ensures !r.NoVersionsOfType?
    ensures r.Selected? ==> exists v :: v in filtered && v.id == r.id
  {
    match Paging.Navigate(Paging.Open(|filtered|, PageSize), choices)
    case Picked(i) =>
      var v := filtered[|filtered| - 1 - i];
      assert v in filtered;
      Selected(v.id)
    case Cancelled => NoneChosen
    case Waiting(_) => StillBrowsing
  }

  /** `list_versions_by_type` (Cobalt_Launcher_Nano_0.7_alpha.py:268-304) up to the
      install prompt: the manifest is an input, the typed lines drive the paged list,
      and a chosen row is mapped back through the reversal. The version chosen is
      always one of the requested kind. */
  function ListByType(vs: seq<VersionEntry>, versionType: string, choices: seq<string>): (r: Listing)
    ensures r.NoVersionsOfType? <==> (forall v :: v in vs ==> !Matches(versionType, v.kind))
    ensures r.Selected? ==> exists v :: v in vs && Matches(versionType, v.kind) && v.id == r.id
  {
    var filtered := Filter(vs, versionType);
    if |filtered| == 0 then NoVersionsOfType
    else
      assert filtered[0] in filtered;
      PickFrom(filtered, choices)
  }

  /** The version installed is exactly the one whose row the user picked: the row at the
      chosen position of the displayed list is the label of the selected version. */
  lemma ChosenRowNamesVersion(filtered: seq<VersionEntry>, choices: seq<string>)
    requires |filtered| > 0
    ensures match Paging.Navigate(Paging.Open(|filtered|, PageSize), choices)
            case Picked(i) =>
              i < |filtered| &&
              PickFrom(filtered, choices) == Selected(filtered[|filtered| - 1 - i].id) &&
              Rows(filtered)[i] == Label(filtered[|filtered| - 1 - i])
            case Cancelled => PickFrom(filtered, choices) == NoneChosen
            case Waiting(_) => PickFrom(filtered, choices) == StillBrowsing
  {
    var nav := Paging.Navigate(Paging.Open(|filtered|, PageSize), choices);
    if nav.Picked? {
      RowIsLabel(filtered, nav.index);
    }
  }

  /** Typing the number printed in front of a row on the first page of the list selects
      the version that row shows. */
  lemma TypedRowSelectsShownVersion(filtered: seq<VersionEntry>, k: int, rest: seq<string>)
    requires 0 <= k < |filtered| && k < PageSize
    ensures var choices := [Text.NatToString((k + 1) as nat)] + rest;
            PickFrom(filtered, choices) == Selected(filtered[|filtered| - 1 - k].id) &&
            Rows(filtered)[k] == Label(filtered[|filtered| - 1 - k])
  {
    var p := Paging.Open(|filtered|, PageSize);
    assert Paging.Labels(p)[k] == k + 1;
    Paging.NavigateFirstPageLabel(p, k, rest);
    RowIsLabel(filtered, k);
  }

  /** Past the first page the number typed is not the row it labels: with 40 versions,
      after "next" the row labelled 16 shows `filtered[24]`, but typing 16 installs
      `filtered[9]`. */
  lemma LaterPageSelectsOtherVersion(filtered: seq<VersionEntry>)
    requires |filtered| == 40
    ensures Rows(filtered)[15] == Label(filtered[24])
    ensures PickFrom(filtered, [Paging.NextCmd, "16"]) == Selected(filtered[9].id)
  {
    Paging.NavigateNextThenLabel();
    RowIsLabel(filtered, 15);
  }
}
