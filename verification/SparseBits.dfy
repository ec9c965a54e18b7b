/** Bits stored as the sorted list of the set ones, with a search that starts where the last one
    ended (bits.rs). */
module SparseBits {
  import opened Wrappers

  ghost predicate Ascending(ids: seq<int>) {
    forall i, j :: 0 <= i < j < |ids| ==> ids[i] < ids[j]
  }

  /** Between which two doc ids the last search ended. */
  class Context {
    var index: int
    var docId: int
    var nextDocId: int

    constructor (firstDocId: int)
      ensures index == -1 && docId == -1 && nextDocId == firstDocId
    {
      index, docId, nextDocId := -1, -1, firstDocId;
    }

    method Reset(firstDocId: int)
      modifies this
      ensures index == -1 && docId == -1 && nextDocId == firstDocId
    {
      index, docId, nextDocId := -1, -1, firstDocId;
    }
  }

  class SparseBits {
    const maxDoc: int
    const docIds: seq<int>
    const firstDocId: int

    ghost predicate Valid() {
      && Ascending(docIds) && (forall d :: d in docIds ==> 0 <= d < maxDoc)
      && firstDocId == At(0)
    }

    /** The doc id at a place, and `maxDoc` behind the last one. */
    function At(i: nat): int
      requires i <= |docIds|
    {
      if i == |docIds| then maxDoc else docIds[i]
    }

    /** The context stands between `index` and `next`. */
    ghost predicate Stands(ctx: Context, next: int)
      reads ctx
    {
      && -1 <= ctx.index < next <= |docIds| && ctx.docId == (if ctx.index == -1 then -1 else docIds[ctx.index])
      && ctx.nextDocId == At(next)
    }

    ghost predicate Ready(ctx: Context)
      reads ctx
    {
      Stands(ctx, ctx.index + 1)
    }

    /** `max_doc` must be greater than the last doc id. */
    constructor (maxDoc: int, docIds: seq<int>)
      requires Ascending(docIds) && (forall d :: d in docIds ==> 0 <= d < maxDoc)
      ensures Valid() && this.maxDoc == maxDoc && this.docIds == docIds
    {
      this.maxDoc, this.docIds := maxDoc, docIds;
      firstDocId := if docIds == [] then maxDoc else docIds[0];
    }

    /** Steps forward, further each time, until a doc id is beyond `docId`. */
    method Gallop(ctx: Context, docId: int) returns (hi: nat)
      requires Valid() && Ready(ctx) && ctx.nextDocId <= docId < maxDoc
      modifies ctx
      ensures Stands(ctx, hi) && ctx.index >= 0 && ctx.docId <= docId < ctx.nextDocId
    {
      ctx.index := ctx.index + 1;
      ctx.docId := ctx.nextDocId;
      hi := ctx.index + 1;
      while true
        invariant 0 <= ctx.index < |docIds| && ctx.index < hi && ctx.docId == docIds[ctx.index] <= docId
        decreases |docIds| - ctx.index
      {
        if hi >= |docIds| {
          hi := |docIds|;
          ctx.nextDocId := maxDoc;
          return;
        }
        var hiDocId := docIds[hi];
        if hiDocId > docId {
          ctx.nextDocId := hiDocId;
          return;
        }
        var delta := hi - ctx.index;
        ctx.index := hi;
        ctx.docId := hiDocId;
        hi := hi + delta * 2;
      }
    }

    method BinarySearch(ctx: Context, hi: nat, docId: int)
      requires Valid() && Stands(ctx, hi) && ctx.index >= 0 && ctx.docId <= docId < ctx.nextDocId
      modifies ctx
      ensures Ready(ctx) && ctx.docId <= docId < ctx.nextDocId
    {
      var high := hi;
      while ctx.index + 1 < high
        invariant Stands(ctx, high) && ctx.index >= 0 && ctx.docId <= docId < ctx.nextDocId
        decreases high - ctx.index
      {
        var mid := ctx.index + (high - ctx.index) / 2;
        var midDocId := docIds[mid];
        if midDocId > docId {
          high := mid;
          ctx.nextDocId := midDocId;
        } else {
          ctx.index := mid;
          ctx.docId := midDocId;
        }
      }
    }

    /** The checks whose failure would be an internal error. */
    method CheckInvariants(ctx: Context, next: int, docId: int) returns (ok: bool)
      requires -1 <= ctx.index < |docIds| && 0 <= next <= |docIds|
      ensures ctx.index < next ==> (ok <==> ctx.docId <= docId < ctx.nextDocId && Stands(ctx, next))
    {
      if ctx.docId > docId || ctx.nextDocId <= docId {
        return false;
      }
      if !((ctx.index == -1 && ctx.docId == -1) || (ctx.index >= 0 && ctx.docId == docIds[ctx.index])) {
        return false;
      }
      if !((next == |docIds| && ctx.nextDocId == maxDoc) || (next < |docIds| && ctx.nextDocId == docIds[next])) {
        return false;
      }
      return true;
    }

    /** Whether a doc id is one of those listed, whatever was asked before with this context;
        the checks never fail. */
    method Get64(ctx: Context, docId: int) returns (r: Option<bool>)
      requires Valid() && Ready(ctx) && 0 <= docId < maxDoc
      modifies ctx
      ensures Ready(ctx) && r == Some(docId in docIds)
    {
      if docId < ctx.docId {
        ctx.Reset(firstDocId);
      }
      if docId >= ctx.nextDocId {
        var hi := Gallop(ctx, docId);
        var ok := CheckInvariants(ctx, hi, docId);
        if !ok {
          return None;
        }
        BinarySearch(ctx, hi, docId);
      }
      var ok := CheckInvariants(ctx, ctx.index + 1, docId);
      if !ok {
        return None;
      }
      Between(ctx, docId);
      r := Some(docId == ctx.docId);
    }

    /** A doc id from `docId` up to `nextDocId` is listed exactly if it is the first of them. */
    lemma Between(ctx: Context, docId: int)
      requires Valid() && Ready(ctx) && 0 <= docId && ctx.docId <= docId < ctx.nextDocId
      ensures docId == ctx.docId <==> docId in docIds
    {
      if docId in docIds {
        var k :| 0 <= k < |docIds| && docIds[k] == docId;
      }
    }
  }

  /** `new`: refuses a `maxDoc` that is not beyond the last doc id. */
  method NewSparseBits(maxDoc: int, docIds: seq<int>) returns (r: Option<SparseBits>)
    requires Ascending(docIds) && forall d :: d in docIds ==> d >= 0
    ensures r.None? <==> exists d :: d in docIds && d >= maxDoc
    ensures r.Some? ==> r.value.Valid() && r.value.docIds == docIds && r.value.maxDoc == maxDoc
  {
    if docIds != [] && maxDoc <= docIds[|docIds| - 1] {
      assert docIds[|docIds| - 1] in docIds;
      return None;
    }
    forall d | d in docIds ensures d < maxDoc {
      var i :| 0 <= i < |docIds| && docIds[i] == d;
    }
    var bits := new SparseBits(maxDoc, docIds);
    return Some(bits);
  }
}
