/** Geometry/MeshOp.hpp: an operation on a mesh reports `Success`, `Warning` or `Error`;
    a `MeshOpGroup` runs its operations in the order they were appended and stops at the
    first `Error`. A mesh is a value of type `M` here, and an operation a function from the
    mesh it is given to its status and the mesh it leaves behind. */
module MeshOp {
  /** `MeshOp::Status`. */
  datatype Status = Success | Warning | Error

  /** One operation: `Run(mesh)` as a function of the mesh. */
  datatype MeshOp<!M> = MeshOp(run: M -> (Status, M))

  /** Running `ops` from `mesh`: each operation gets the mesh the previous one left; an
      `Error` ends the run with that mesh, and running past the last operation is a
      `Success`. */
  function RunFrom<M>(ops: seq<MeshOp<M>>, mesh: M): (Status, M)
    decreases |ops|
  {
    if |ops| == 0 then (Success, mesh)
    else
      var (status, mesh') := ops[0].run(mesh);
      if status == Error then (Error, mesh') else RunFrom(ops[1..], mesh')
  }

  /** The meshes the operations would see if every one of them ran: `mesh` first, then what
      each operation leaves. */
  function States<M>(ops: seq<MeshOp<M>>, mesh: M): (states: seq<M>)
    ensures |states| == |ops| + 1 && states[0] == mesh
    decreases |ops|
  {
    if |ops| == 0 then [mesh] else [mesh] + States(ops[1..], ops[0].run(mesh).1)
  }

  /** Operation `i` reports `Error` on the mesh it is handed. */
  ghost predicate FailsAt<M>(ops: seq<MeshOp<M>>, mesh: M, i: int)
    requires 0 <= i < |ops|
  {
    ops[i].run(States(ops, mesh)[i]).0 == Error
  }

  /** Shifting by one operation: what operation `i + 1` sees from `mesh` is what operation
      `i` of the rest sees from the mesh the first operation leaves. */
  lemma StatesShift<M>(ops: seq<MeshOp<M>>, mesh: M, i: int)
    requires 0 <= i < |ops|
    ensures States(ops, mesh)[i + 1] == States(ops[1..], ops[0].run(mesh).1)[i]
  {
  }

  /** No `Error` anywhere: every operation runs, in order, and the group reports `Success`
      with the mesh the last operation leaves. `Warning`s do not stop it. */
  lemma {:induction false} RunWithoutError<M>(ops: seq<MeshOp<M>>, mesh: M)
    requires forall i :: 0 <= i < |ops| ==> !FailsAt(ops, mesh, i)
    ensures RunFrom(ops, mesh) == (Success, States(ops, mesh)[|ops|])
    decreases |ops|
  {
    if |ops| > 0 {
      assert !FailsAt(ops, mesh, 0);
      var rest, mesh' := ops[1..], ops[0].run(mesh).1;
      forall i | 0 <= i < |rest|
        ensures !FailsAt(rest, mesh', i)
      {
        assert !FailsAt(ops, mesh, i + 1);
        StatesShift(ops, mesh, i);
      }
      RunWithoutError(rest, mesh');
      StatesShift(ops, mesh, |rest|);
    }
  }

  /** The first `Error` at operation `j`: the group reports `Error` with the mesh operation
      `j` left, so no later operation has run. */
  lemma {:induction false} RunStopsAtFirstError<M>(ops: seq<MeshOp<M>>, mesh: M, j: int)
    requires 0 <= j < |ops| && FailsAt(ops, mesh, j)
    requires forall i :: 0 <= i < j ==> !FailsAt(ops, mesh, i)
    ensures RunFrom(ops, mesh) == (Error, States(ops, mesh)[j + 1])
    decreases j
  {
    if j == 0 {
      assert States(ops, mesh)[1] == ops[0].run(mesh).1;
    } else {
      assert !FailsAt(ops, mesh, 0);
      var rest, mesh' := ops[1..], ops[0].run(mesh).1;
      StatesShift(ops, mesh, j - 1);
      assert FailsAt(rest, mesh', j - 1);
      forall i | 0 <= i < j - 1
        ensures !FailsAt(rest, mesh', i)
      {
        assert !FailsAt(ops, mesh, i + 1);
        StatesShift(ops, mesh, i);
      }
      RunStopsAtFirstError(rest, mesh', j - 1);
      StatesShift(ops, mesh, j);
    }
  }

  /** A group never reports `Warning`: it reports `Error` exactly when some operation
      fails on the mesh it is handed, and `Success` otherwise. */
  lemma RunReportsError<M>(ops: seq<MeshOp<M>>, mesh: M)
    ensures RunFrom(ops, mesh).0 != Warning
    ensures RunFrom(ops, mesh).0 == Error <==> exists i :: 0 <= i < |ops| && FailsAt(ops, mesh, i)
  {
    if j :| 0 <= j < |ops| && FailsAt(ops, mesh, j) {
      FirstFailure(ops, mesh, j);
      var first :| 0 <= first <= j && FailsAt(ops, mesh, first) && forall i :: 0 <= i < first ==> !FailsAt(ops, mesh, i);
      RunStopsAtFirstError(ops, mesh, first);
    } else {
      RunWithoutError(ops, mesh);
    }
  }

  /** A failing operation has a first failing one at or before it. */
  lemma {:induction false} FirstFailure<M>(ops: seq<MeshOp<M>>, mesh: M, j: int)
    requires 0 <= j < |ops| && FailsAt(ops, mesh, j)
    ensures exists first :: 0 <= first <= j && FailsAt(ops, mesh, first) && forall i :: 0 <= i < first ==> !FailsAt(ops, mesh, i)
    decreases j
  {
    if exists i :: 0 <= i < j && FailsAt(ops, mesh, i) {
      var i :| 0 <= i < j && FailsAt(ops, mesh, i);
      FirstFailure(ops, mesh, i);
    }
  }

  /** `MeshOpGroup`: the operations appended so far, in order. */
  class MeshOpGroup<M>
  {
    var ops: seq<MeshOp<M>>

    constructor()
      ensures ops == []
    {
      ops := [];
    }

    /** `Append(args...)`: the new operation goes at the end, earlier ones stay where they
        were, and the caller gets the new operation back. */
    method Append(op: MeshOp<M>) returns (appended: MeshOp<M>)
      modifies this
      ensures ops == old(ops) + [op]
      ensures appended == ops[|ops| - 1] == op
    {
      ops := ops + [op];
      appended := ops[|ops| - 1];
    }

    /** `Run(mesh)`: the loop over `ops_` with its early return on `Error`. */
    method Run(mesh: M) returns (status: Status, mesh': M)
      ensures (status, mesh') == RunFrom(ops, mesh)
    {
      var i := 0;
      mesh' := mesh;
      while i < |ops|
        invariant 0 <= i <= |ops|
        invariant RunFrom(ops[i..], mesh') == RunFrom(ops, mesh)
      {
        var result := ops[i].run(mesh');
        assert ops[i..][1..] == ops[i + 1..];
        mesh' := result.1;
        if result.0 == Error {
          return Error, mesh';
        }
        i := i + 1;
      }
      status := Success;
    }
  }
}
