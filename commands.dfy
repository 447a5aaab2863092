/**
 * The editable list of spindle commands: the `SpindleCommand` record, the
 * update-by-id (a `map` over the list) and remove-by-id (a `filter`)
 * handlers, and the editor state that owns the list and the id counter.
 */
module Commands {

  /** One step of the warm-up timeline: hold `rpm` for `durationMs` milliseconds. */
  datatype SpindleCommand = SpindleCommand(id: nat, rpm: int, durationMs: int)

  /** The command that "Add" appends, under the given id. */
  function NewCommand(id: nat): SpindleCommand {
    SpindleCommand(id, 0, 0)
  }

  /** A one-field edit of a command, as entered in the RPM or the duration field. */
  datatype Patch = SetRpm(rpm: int) | SetDurationMs(durationMs: int)

  /** The command with the patched field replaced (`{...c, field: value}`). */
  function Patched(c: SpindleCommand, p: Patch): SpindleCommand {
    match p
    case SetRpm(v) => c.(rpm := v)
    case SetDurationMs(v) => c.(durationMs := v)
  }

  /** Update by id: every command whose id matches is patched, the others are kept. */
  function UpdateById(cmds: seq<SpindleCommand>, id: nat, p: Patch): (r: seq<SpindleCommand>)
    ensures |r| == |cmds|
    ensures forall i :: 0 <= i < |cmds| ==> r[i] == if cmds[i].id == id then Patched(cmds[i], p) else cmds[i]
    decreases |cmds|
  {
    if cmds == [] then []
    else [if cmds[0].id == id then Patched(cmds[0], p) else cmds[0]] + UpdateById(cmds[1..], id, p)
  }

  /** Remove by id: keeps, in order, the commands whose id differs. */
  function RemoveById(cmds: seq<SpindleCommand>, id: nat): (r: seq<SpindleCommand>)
    ensures |r| <= |cmds|
    ensures forall c :: c in r <==> c in cmds && c.id != id
    decreases |cmds|
  {
    if cmds == [] then []
    else (if cmds[0].id == id then [] else [cmds[0]]) + RemoveById(cmds[1..], id)
  }

  /** The ids of the list, position by position. */
  function Ids(cmds: seq<SpindleCommand>): seq<nat> {
    seq(|cmds|, i requires 0 <= i < |cmds| => cmds[i].id)
  }

  predicate IdsDistinct(cmds: seq<SpindleCommand>) {
    forall i, j :: 0 <= i < j < |cmds| ==> cmds[i].id != cmds[j].id
  }

  /** Every id in the list is below the counter, so the counter is fresh. */
  predicate IdsBelow(cmds: seq<SpindleCommand>, bound: nat) {
    forall i :: 0 <= i < |cmds| ==> cmds[i].id < bound
  }

  predicate HasId(cmds: seq<SpindleCommand>, id: nat) {
    exists i :: 0 <= i < |cmds| && cmds[i].id == id
  }

  /** Appending a command under a fresh counter keeps ids distinct and below the bumped counter. */
  lemma AddKeepsIdsFresh(cmds: seq<SpindleCommand>, runningIndex: nat)
    requires IdsDistinct(cmds) && IdsBelow(cmds, runningIndex)
    ensures IdsDistinct(cmds + [NewCommand(runningIndex)])
    ensures IdsBelow(cmds + [NewCommand(runningIndex)], runningIndex + 1)
  {
  }

  /** Updating keeps length, order and every id. */
  lemma {:induction false} UpdateKeepsIds(cmds: seq<SpindleCommand>, id: nat, p: Patch)
    ensures Ids(UpdateById(cmds, id, p)) == Ids(cmds)
  {
  }

  /** Updating an id that no command carries changes nothing. */
  lemma UpdateUnknownId(cmds: seq<SpindleCommand>, id: nat, p: Patch)
    requires !HasId(cmds, id)
    ensures UpdateById(cmds, id, p) == cmds
  {
    var r := UpdateById(cmds, id, p);
    forall i | 0 <= i < |cmds| ensures r[i] == cmds[i] {
      assert cmds[i].id != id;
    }
  }

  /** With distinct ids, updating the id of the command at position `k` patches that command alone. */
  lemma UpdateAt(cmds: seq<SpindleCommand>, k: nat, p: Patch)
    requires IdsDistinct(cmds) && k < |cmds|
    ensures UpdateById(cmds, cmds[k].id, p) == cmds[k := Patched(cmds[k], p)]
  {
  }

  /** Updating keeps ids distinct and below any bound they were below. */
  lemma UpdateKeepsIdsFresh(cmds: seq<SpindleCommand>, id: nat, p: Patch, bound: nat)
    requires IdsDistinct(cmds) && IdsBelow(cmds, bound)
    ensures IdsDistinct(UpdateById(cmds, id, p)) && IdsBelow(UpdateById(cmds, id, p), bound)
  {
  }

  /** Removal of one id distributes over concatenation: the survivors keep their order. */
  lemma {:induction false} RemoveAppend(a: seq<SpindleCommand>, b: seq<SpindleCommand>, id: nat)
    ensures RemoveById(a + b, id) == RemoveById(a, id) + RemoveById(b, id)
    decreases |a|
  {
    if a != [] {
      assert (a + b)[1..] == a[1..] + b;
      RemoveAppend(a[1..], b, id);
    } else {
      assert a + b == b;
    }
  }

  /** Removing an id that no command carries changes nothing. */
  lemma {:induction false} RemoveUnknownId(cmds: seq<SpindleCommand>, id: nat)
    requires !HasId(cmds, id)
    ensures RemoveById(cmds, id) == cmds
    decreases |cmds|
  {
    if cmds != [] {
      assert cmds[0].id != id;
      assert !HasId(cmds[1..], id) by {
        forall i | 0 <= i < |cmds[1..]| ensures cmds[1..][i].id != id {
          assert cmds[1..][i] == cmds[i + 1];
        }
      }
      RemoveUnknownId(cmds[1..], id);
    }
  }

  /**
   * With distinct ids, removing the id of the command at position `k`
   * deletes exactly that command and closes the gap.
   */
  lemma {:induction false} RemoveAt(cmds: seq<SpindleCommand>, k: nat)
    requires IdsDistinct(cmds) && k < |cmds|
    ensures RemoveById(cmds, cmds[k].id) == cmds[..k] + cmds[k + 1..]
    decreases k
  {
    var id := cmds[k].id;
    var rest := cmds[1..];
    if k == 0 {
      assert !HasId(rest, id) by {
        forall i | 0 <= i < |rest| ensures rest[i].id != id {
          assert rest[i] == cmds[i + 1];
        }
      }
      RemoveUnknownId(rest, id);
    } else {
      assert cmds[0].id != id;
      assert rest[k - 1] == cmds[k];
      assert IdsDistinct(rest) by {
        forall i, j | 0 <= i < j < |rest| ensures rest[i].id != rest[j].id {
          assert rest[i] == cmds[i + 1] && rest[j] == cmds[j + 1];
        }
      }
      RemoveAt(rest, k - 1);
      assert cmds[..k] == [cmds[0]] + rest[..k - 1];
      assert cmds[k + 1..] == rest[k..];
      SplitAround(cmds[0], rest[..k - 1], rest[k..]);
    }
  }

  lemma SplitAround(c: SpindleCommand, a: seq<SpindleCommand>, b: seq<SpindleCommand>)
    ensures [c] + a + b == [c] + (a + b)
  {
  }

  /** Removing keeps ids distinct and below any bound they were below. */
  lemma {:induction false} RemoveKeepsIdsFresh(cmds: seq<SpindleCommand>, id: nat, bound: nat)
    requires IdsDistinct(cmds) && IdsBelow(cmds, bound)
    ensures IdsDistinct(RemoveById(cmds, id)) && IdsBelow(RemoveById(cmds, id), bound)
    decreases |cmds|
  {
    if cmds != [] {
      var rest := cmds[1..];
      RemoveKeepsIdsFresh(rest, id, bound);
      var r := RemoveById(cmds, id);
      var r' := RemoveById(rest, id);
      if cmds[0].id != id {
        assert r == [cmds[0]] + r';
        forall j | 0 <= j < |r'| ensures r'[j].id != cmds[0].id {
          assert r'[j] in rest;
        }
      } else {
        assert r == r';
      }
    }
  }

  /**
   * The editor state the source keeps in React state: the ordered command
   * list and the counter that supplies ids. Ids are assigned from the
   * counter and never reused.
   */
  class WarmupEditor {
    var spindleCommands: seq<SpindleCommand>
    var runningIndex: nat

    /** Ids are pairwise distinct and all below the counter. */
    ghost predicate Valid()
      reads this
    {
      IdsDistinct(spindleCommands) && IdsBelow(spindleCommands, runningIndex)
    }

    /** The session starts with no commands and the counter at 0. */
    constructor ()
      ensures Valid()
      ensures spindleCommands == [] && runningIndex == 0
    {
      spindleCommands := [];
      runningIndex := 0;
    }

    /** "Add": append a stopped, zero-length command under the counter, then bump the counter. */
    method AddSpindleCommand()
      modifies this
      ensures spindleCommands == old(spindleCommands) + [NewCommand(old(runningIndex))]
      ensures runningIndex == old(runningIndex) + 1
      ensures old(Valid()) ==> Valid()
    {
      if Valid() {
        AddKeepsIdsFresh(spindleCommands, runningIndex);
      }
      spindleCommands := spindleCommands + [NewCommand(runningIndex)];
      runningIndex := runningIndex + 1;
    }

    /** An edit of the RPM or duration field of the command with the given id. */
    method UpdateCommand(id: nat, p: Patch)
      modifies this
      ensures spindleCommands == UpdateById(old(spindleCommands), id, p)
      ensures runningIndex == old(runningIndex)
      ensures old(Valid()) ==> Valid()
    {
      if Valid() {
        UpdateKeepsIdsFresh(spindleCommands, id, p, runningIndex);
      }
      spindleCommands := UpdateById(spindleCommands, id, p);
    }

    /** "Remove": drop the command with the given id. */
    method RemoveCommand(id: nat)
      modifies this
      ensures spindleCommands == RemoveById(old(spindleCommands), id)
      ensures runningIndex == old(runningIndex)
      ensures old(Valid()) ==> Valid()
    {
      if Valid() {
        RemoveKeepsIdsFresh(spindleCommands, id, runningIndex);
      }
      spindleCommands := RemoveById(spindleCommands, id);
    }
  }
}
