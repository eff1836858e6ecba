/** The closed set of server message kinds the X protocol client recognises,
    and the dispatch from a received message id to one of them. */
module XRegistry {
  import opened Bytes
  import opened Results

  /** One variant per `case` of the dispatch switch, in the same order. */
  datatype Kind =
    | Ok
    | Error
    | Notice
    | ParamChange
    | Capabilities
    | AuthCont
    | AuthOk
    | PrepStmtOk
    | PrepStmtExecOk
    | ColumnMeta
    | Row
    | CursorFetchDone
    | FetchSuspended
    | CursorsPoll
    | CursorCloseOk
    | FetchDoneMore
    | AuthFail

  const AllKinds: seq<Kind> :=
    [Ok, Error, Notice, ParamChange, Capabilities, AuthCont, AuthOk, PrepStmtOk,
     PrepStmtExecOk, ColumnMeta, Row, CursorFetchDone, FetchSuspended, CursorsPoll,
     CursorCloseOk, FetchDoneMore, AuthFail]

  /** What the generated protocol code supplies: the numeric id of each
      server message kind, and the decoder of the `msg` text field of an
      ERROR message payload. */
  datatype Registry = Registry(code: Kind -> int, errorText: seq<byte> -> string)

  /** The ids are pairwise distinct, as the case labels of a switch must be. */
  ghost predicate Valid(reg: Registry) {
    forall a: Kind, b: Kind :: reg.code(a) == reg.code(b) ==> a == b
  }

  lemma AllKindsComplete(k: Kind)
    ensures k in AllKinds
  {
  }

  /** The kind whose id is `mid` among `ks`, first match wins. */
  function Lookup(reg: Registry, mid: int, ks: seq<Kind>): (r: Option<Kind>)
    ensures r.Some? ==> r.value in ks && reg.code(r.value) == mid
    ensures r.None? ==> forall i :: 0 <= i < |ks| ==> reg.code(ks[i]) != mid
  {
    if |ks| == 0 then None
    else if reg.code(ks[0]) == mid then Some(ks[0])
    else Lookup(reg, mid, ks[1..])
  }

  /** The dispatch switch: the kind a received id stands for, or nothing for
      an id outside the closed set. */
  function DecodeTag(reg: Registry, mid: int): (r: Option<Kind>)
    requires Valid(reg)
    ensures r.Some? <==> exists k: Kind :: reg.code(k) == mid
    ensures r.Some? ==> reg.code(r.value) == mid
  {
    var r := Lookup(reg, mid, AllKinds);
    if r.None? then
      assert forall k: Kind :: reg.code(k) != mid by {
        forall k: Kind ensures reg.code(k) != mid {
          AllKindsComplete(k);
        }
      }
      r
    else
      r
  }

  /** Each recognised id decodes to exactly its own variant. */
  lemma DecodeTagOfCode(reg: Registry, k: Kind)
    requires Valid(reg)
    ensures DecodeTag(reg, reg.code(k)) == Some(k)
  {
  }

  /** An id that is no kind's id never decodes. */
  lemma DecodeTagUnknown(reg: Registry, mid: int)
    requires Valid(reg)
    requires forall k: Kind :: reg.code(k) != mid
    ensures DecodeTag(reg, mid) == None
  {
  }
}
