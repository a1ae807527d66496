/**
 A kernel session: cells executed one after another against one transcript
 (`chat_log`), each cell with what the completion service delivered to it.
 */
module Transcript {
  import opened Text
  import opened Query
  import opened Kernel

  datatype Cell = Cell(code: string, delivery: Delivery)

  predicate NoReset(cells: seq<Cell>) {
    forall k | 0 <= k < |cells| :: !IsReset(cells[k].code)
  }

  /** The transcript after executing `cells` in order, every query's answer
      starting as `start`. */
  function Run(log: seq<string>, cells: seq<Cell>, start: Option<string>): seq<string>
    decreases |cells|
  {
    if cells == [] then log
    else Run(ExecuteDirect(log, cells[0].code, start, cells[0].delivery).log, cells[1..], start)
  }

  /** Without a reset the transcript is append-only: every earlier entry
      stays where it was, each cell adds at most one entry, and the old
      rendering is a prefix of the new one. */
  lemma {:induction false} AppendOnlyWithoutReset(log: seq<string>, cells: seq<Cell>, start: Option<string>)
    requires NoReset(cells)
    ensures log <= Run(log, cells, start)
    ensures |Run(log, cells, start)| <= |log| + |cells|
    ensures Concat(log) <= Concat(Run(log, cells, start))
    decreases |cells|
  {
    if cells != [] {
      var next := ExecuteDirect(log, cells[0].code, start, cells[0].delivery).log;
      assert !IsReset(cells[0].code);
      assert NoReset(cells[1..]) by {
        forall k | 0 <= k < |cells[1..]| ensures !IsReset(cells[1..][k].code) {
          assert cells[1..][k] == cells[k + 1];
        }
      }
      AppendOnlyWithoutReset(next, cells[1..], start);
    }
  }

  /** The kernel as written never records a conversational turn: with the
      answer starting as `None`, only a reset ever changes the transcript. */
  lemma {:induction false} AsWrittenOnlyResetChangesTranscript(log: seq<string>, cells: seq<Cell>)
    requires NoReset(cells)
    ensures Run(log, cells, None) == log
    decreases |cells|
  {
    if cells != [] {
      var c := cells[0];
      assert !IsReset(c.code);
      AsWrittenKeepsTranscript(log, c.code, c.delivery);
      assert NoReset(cells[1..]) by {
        forall k | 0 <= k < |cells[1..]| ensures !IsReset(cells[1..][k].code) {
          assert cells[1..][k] == cells[k + 1];
        }
      }
      AsWrittenOnlyResetChangesTranscript(log, cells[1..]);
    }
  }

  /** A conversational cell whose stream ran to its end. */
  predicate CompletedTurn(c: Cell) {
    && !AllSpace(c.code) && c.code[0] != '!' && c.code[0] != '<'
    && c.delivery.end == Closed
  }

  /** With the answer starting as `""`, every completed conversational turn
      adds exactly one entry, so the transcript records one entry per turn. */
  lemma {:induction false} IntendedRecordsEveryTurn(log: seq<string>, cells: seq<Cell>)
    requires forall k | 0 <= k < |cells| :: CompletedTurn(cells[k])
    ensures |Run(log, cells, Some(""))| == |log| + |cells|
    ensures log <= Run(log, cells, Some(""))
    decreases |cells|
  {
    if cells != [] {
      var c := cells[0];
      assert CompletedTurn(c);
      CompletedQueryAppends(log, c.code, c.delivery);
      var next := ExecuteDirect(log, c.code, Some(""), c.delivery).log;
      assert forall k | 0 <= k < |cells[1..]| :: CompletedTurn(cells[1..][k]) by {
        forall k | 0 <= k < |cells[1..]| ensures CompletedTurn(cells[1..][k]) {
          assert cells[1..][k] == cells[k + 1];
        }
      }
      IntendedRecordsEveryTurn(next, cells[1..]);
    }
  }
}
