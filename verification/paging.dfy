/** `ScrollableList`: a paged list the user walks with one-letter commands and leaves by
    typing an item number or the quit letter. Items matter only through their count. */
module Paging {
  import opened Wrappers
  import opened Text

  /** The commands, after `.lower()`: next page, previous page, leave. */
  const NextCmd: string := "\U{043D}"
  const PrevCmd: string := "\U{043F}"
  const QuitCmd: string := "\U{0432}"

  /** The list state: how many items, the page size, and the page on screen (0-based). */
  datatype Pager = Pager(count: nat, pageSize: int, page: int)

  /** The page is never negative and never past the last item (page 0 of an empty list
      is allowed). */
  predicate Valid(p: Pager) {
    && p.pageSize > 0
    && p.page >= 0
    && (p.page == 0 || p.page * p.pageSize < p.count)
  }

  /** `ScrollableList(items, page_size)` (Cobalt_Launcher_Nano_0.7_alpha.py:102-105). */
  function Open(count: nat, pageSize: int): (p: Pager)
    requires pageSize > 0
    ensures Valid(p) && p.page == 0 && p.count == count && p.pageSize == pageSize
  {
    Pager(count, pageSize, 0)
  }

  /** The page count in the header, `(len + size - 1) // size`. */
  function PageCount(p: Pager): int
    requires p.pageSize > 0
  {
    (p.count + p.pageSize - 1) / p.pageSize
  }

  /** The header's page count is the ceiling of count / size, and in a valid state with
      items the page shown is one of them. */
  lemma PageCountIsCeiling(p: Pager)
    requires Valid(p)
    ensures PageCount(p) >= 0
    ensures PageCount(p) * p.pageSize >= p.count
    ensures (PageCount(p) - 1) * p.pageSize < p.count || p.count == 0
    ensures p.count == 0 <==> PageCount(p) == 0
    ensures p.count > 0 ==> 0 <= p.page < PageCount(p)
  {
    var c, k := p.count, p.pageSize;
    var q := PageCount(p);
    assert c + k - 1 == q * k + (c + k - 1) % k;
    if p.count > 0 && p.page > 0 {
      assert p.page * k < c;
      assert p.page * k <= c - 1;
      assert p.page * k < q * k;
    }
  }

  /** The numbers printed in front of the items on the current page
      (Cobalt_Launcher_Nano_0.7_alpha.py:108-116): one per item shown, at most a page of
      them, running to the end of the list on the last page, each the item's 1-based
      position in the whole list. */
  function Labels(p: Pager): (r: seq<int>)
    requires Valid(p)
    ensures |r| <= p.pageSize
    ensures p.page * p.pageSize + |r| <= p.count
    ensures |r| < p.pageSize ==> p.page * p.pageSize + |r| == p.count
    ensures forall i :: 0 <= i < |r| ==> r[i] == p.page * p.pageSize + i + 1
  {
    var start := p.page * p.pageSize;
    var n := if p.count <= start then 0 else if p.count - start < p.pageSize then p.count - start else p.pageSize;
    seq(n, i => start + i + 1)
  }

  /** The label shown for an item is its 1-based position in the whole list. */
  lemma LabelIsGlobalPosition(p: Pager, i: int)
    requires Valid(p) && 0 <= i < |Labels(p)|
    ensures Labels(p)[i] == (p.page * p.pageSize + i) + 1
    ensures p.page * p.pageSize + i < p.count
  {
  }

  /** A typed command, parsed the way `navigate` tests it. */
  datatype Command = Next | Prev | Quit | Number(n: nat) | Unknown

  function Parse(choice: string): (c: Command)
    ensures c.Number? <==> IsDigits(choice)
  {
    if choice == NextCmd then Next
    else if choice == PrevCmd then Prev
    else if choice == QuitCmd then Quit
    else if IsDigits(choice) then Number(DecimalValue(choice))
    else Unknown
  }

  /** The message `navigate` prints when it stays in its loop. */
  datatype Note = Moved | LastPage | FirstPage | BadNumber | BadCommand

  datatype Outcome = Continue(note: Note) | Chosen(index: int) | Closed

  datatype StepResult = StepResult(pager: Pager, outcome: Outcome)

  /** Choose index `idx` if it names an item, otherwise stay with "invalid number". */
  function Choose(p: Pager, idx: int): (r: StepResult)
    ensures r.pager == p
    ensures r.outcome.Chosen? <==> 0 <= idx < p.count
    ensures r.outcome.Chosen? ==> r.outcome.index == idx
    ensures !r.outcome.Chosen? ==> r.outcome == Continue(BadNumber)
  {
    if 0 <= idx < p.count then StepResult(p, Chosen(idx)) else StepResult(p, Continue(BadNumber))
  }

  /** One pass of the `navigate` loop for one typed line
      (Cobalt_Launcher_Nano_0.7_alpha.py:131-151), with the code's own index arithmetic:
      the typed number is taken relative to the current page. */
  function Step(p: Pager, choice: string): (r: StepResult)
    requires Valid(p)
    ensures Valid(r.pager)
    ensures r.pager.count == p.count && r.pager.pageSize == p.pageSize
    ensures r.outcome.Chosen? ==> 0 <= r.outcome.index < p.count && r.pager == p
    ensures r.outcome.Closed? <==> choice == QuitCmd
    ensures r.pager.page != p.page ==> choice == NextCmd || choice == PrevCmd
    ensures choice == NextCmd ==>
              (r.pager.page == p.page + 1 <==> (p.page + 1) * p.pageSize < p.count) &&
              (r.pager.page == p.page <==> !((p.page + 1) * p.pageSize < p.count))
    ensures choice == PrevCmd ==> r.pager.page == (if p.page > 0 then p.page - 1 else 0)
  {
    match Parse(choice)
    case Next =>
      if (p.page + 1) * p.pageSize < p.count then StepResult(p.(page := p.page + 1), Continue(Moved))
      else StepResult(p, Continue(LastPage))
    case Prev =>
      if p.page > 0 then
        assert (p.page - 1) * p.pageSize <= p.page * p.pageSize;
        StepResult(p.(page := p.page - 1), Continue(Moved))
      else StepResult(p, Continue(FirstPage))
    case Quit => StepResult(p, Closed)
    case Number(n) => Choose(p, p.page * p.pageSize + n - 1)
    case Unknown => StepResult(p, Continue(BadCommand))
  }

  /** How a run of `navigate` over a script of typed lines ends: an item was chosen,
      the user left, or the script ran out with the list still waiting for input. */
  datatype Navigation = Picked(index: nat) | Cancelled | Waiting(pager: Pager)

  /** `ScrollableList.navigate()` (Cobalt_Launcher_Nano_0.7_alpha.py:120-151): repeat a
      step until it chooses or closes, with the step as written. */
  function Navigate(p: Pager, choices: seq<string>): (r: Navigation)
    requires Valid(p)
    ensures r.Picked? ==> r.index < p.count
    ensures r.Waiting? ==> Valid(r.pager) && r.pager.count == p.count && r.pager.pageSize == p.pageSize
    ensures r.Cancelled? ==> QuitCmd in choices
    decreases |choices|
  {
    if |choices| == 0 then Waiting(p)
    else
      var s := Step(p, choices[0]);
      match s.outcome
      case Chosen(i) => Picked(i)
      case Closed => Cancelled
      case Continue(_) =>
        var r := Navigate(s.pager, choices[1..]);
        assert r.Cancelled? ==> QuitCmd in choices by {
          if r.Cancelled? {
            var k :| 0 <= k < |choices[1..]| && choices[1..][k] == QuitCmd;
            assert choices[k + 1] == QuitCmd;
          }
        }
        r
  }

  /** On the first page the code's arithmetic agrees with the labels: typing the label
      shown for a row returns that row's item at once. */
  lemma NavigateFirstPageLabel(p: Pager, i: int, rest: seq<string>)
    requires Valid(p) && p.page == 0 && 0 <= i < |Labels(p)|
    ensures Navigate(p, [NatToString(Labels(p)[i] as nat)] + rest) == Picked(i)
  {
    TypedNumberIsPageRelative(p, (i + 1) as nat);
    var choices := [NatToString(Labels(p)[i] as nat)] + rest;
    assert choices[0] == NatToString((i + 1) as nat);
  }

  /** In the loop as written, after moving to the second page of 40 items, typing the
      label 16 shown for position 15 returns position 30. */
  lemma NavigateNextThenLabel()
    ensures Labels(Pager(40, 15, 1))[0] == 16
    ensures Navigate(Open(40, 15), [NextCmd, "16"]) == Picked(30)
  {
    var p := Open(40, 15);
    var choices := [NextCmd, "16"];
    assert Step(p, NextCmd).pager == Pager(40, 15, 1);
    LabelSelectsOtherItem();
    assert choices[1..] == ["16"];
  }

  // ------------------------------------- finding: labels versus selection

  /** As written, the number shown in front of an item does not select that item once
      past the first page: typing the label of the item at position `j` on page `k`
      asks for position `j + k * size`. With 40 items, 15 per page, on the second page
      the first item shown is labelled 16 (position 15), and typing 16 chooses
      position 30. */
  lemma LabelSelectsOtherItem()
    ensures var p := Pager(40, 15, 1);
            Labels(p)[0] == 16 && Step(p, "16").outcome == Chosen(30)
  {
    var p := Pager(40, 15, 1);
    assert IsDigits("16");
    assert DecimalValue("16") == 16 by {
      assert "16"[..1] == "1";
    }
  }

  /** In general, on any page past the first, typing a shown label either chooses a
      different item or is rejected. */
  lemma LabelMissesOnLaterPages(p: Pager, i: int)
    requires Valid(p) && p.page > 0 && 0 <= i < |Labels(p)|
    ensures Step(p, NatToString(Labels(p)[i] as nat)).outcome != Chosen(p.page * p.pageSize + i)
  {
    LabelIsGlobalPosition(p, i);
    TypedNumberIsPageRelative(p, p.page * p.pageSize + i + 1);
  }

  /** As written, typing the number `n` asks for position `page * size + n - 1`. */
  lemma TypedNumberIsPageRelative(p: Pager, n: nat)
    requires Valid(p)
    ensures Step(p, NatToString(n)) == Choose(p, p.page * p.pageSize + n - 1)
  {
    DecimalRoundTrip(n);
    NotACommand(NatToString(n));
  }

  /** A digit string is none of the letter commands. */
  lemma NotACommand(s: string)
    requires IsDigits(s)
    ensures s != NextCmd && s != PrevCmd && s != QuitCmd
  {
    assert IsDigit(s[0]);
  }

  /** The corrected step: a typed number is the label the list shows, so it names the
      item at position `number - 1`; every other line is handled as written. */
  function StepCorrected(p: Pager, choice: string): (r: StepResult)
    requires Valid(p)
    ensures Valid(r.pager)
    ensures r.pager.count == p.count && r.pager.pageSize == p.pageSize
    ensures r.outcome.Chosen? ==> 0 <= r.outcome.index < p.count && r.pager == p
    ensures r.outcome.Closed? <==> choice == QuitCmd
    ensures IsDigits(choice) ==>
              r.pager == p &&
              (r.outcome.Chosen? <==> 1 <= DecimalValue(choice) <= p.count) &&
              (r.outcome.Chosen? ==> r.outcome.index == DecimalValue(choice) - 1)
    ensures !IsDigits(choice) ==> r == Step(p, choice)
  {
    match Parse(choice)
    case Number(n) =>
      NotACommand(choice);
      Choose(p, n - 1)
    case _ => Step(p, choice)
  }

  /** With the correction, typing the label shown next to an item chooses that item. */
  lemma CorrectedLabelSelectsItem(p: Pager, i: int)
    requires Valid(p) && 0 <= i < |Labels(p)|
    ensures StepCorrected(p, NatToString(Labels(p)[i] as nat)).outcome == Chosen(p.page * p.pageSize + i)
  {
    var j := p.page * p.pageSize + i;
    LabelIsGlobalPosition(p, i);
    DecimalRoundTrip((j + 1) as nat);
    NotACommand(NatToString((j + 1) as nat));
  }

  /** The loop with the corrected step. */
  function NavigateCorrected(p: Pager, choices: seq<string>): (r: Navigation)
    requires Valid(p)
    ensures r.Picked? ==> r.index < p.count
    ensures r.Waiting? ==> Valid(r.pager) && r.pager.count == p.count && r.pager.pageSize == p.pageSize
    ensures r.Cancelled? ==> QuitCmd in choices
    decreases |choices|
  {
    if |choices| == 0 then Waiting(p)
    else
      var s := StepCorrected(p, choices[0]);
      match s.outcome
      case Chosen(i) => Picked(i)
      case Closed => Cancelled
      case Continue(_) =>
        var r := NavigateCorrected(s.pager, choices[1..]);
        assert r.Cancelled? ==> QuitCmd in choices by {
          if r.Cancelled? {
            var k :| 0 <= k < |choices[1..]| && choices[1..][k] == QuitCmd;
            assert choices[k + 1] == QuitCmd;
          }
        }
        r
  }

  /** In the corrected loop, typing the label shown for a row, on any page, returns that
      row's item at once. */
  lemma NavigateTypedLabel(p: Pager, i: int, rest: seq<string>)
    requires Valid(p) && 0 <= i < |Labels(p)|
    ensures NavigateCorrected(p, [NatToString(Labels(p)[i] as nat)] + rest) == Picked(p.page * p.pageSize + i)
  {
    CorrectedLabelSelectsItem(p, i);
    LabelIsGlobalPosition(p, i);
    var choices := [NatToString(Labels(p)[i] as nat)] + rest;
    assert choices[0] == NatToString(Labels(p)[i] as nat);
  }
}
