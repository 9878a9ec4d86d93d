/**
 * Image memberships in the registry API (glance/registry/api/v1/members.py):
 * who an image is shared with and whether each member may share it on.
 *
 * The database is replaced by the live memberships of the one image being
 * changed, a map from member id to its `can_share` flag; image lookup and
 * the sharability test are an input.
 */
module Members {
  import opened Wrappers

  type MemberId = string

  /** The live memberships of one image: member id to `can_share`. */
  type Table = map<MemberId, bool>

  /** The caller: the owning tenant, if authenticated, and whether an administrator. */
  datatype Context = Context(owner: Option<string>, isAdmin: bool)

  /** What looking the image up gave: the image and whether the caller may share it, or an error. */
  datatype ImageLookup = Found(sharable: bool) | ImageNotFound | ImageForbidden

  /** The HTTP errors the membership calls answer with. */
  datatype HttpError = Unauthorized | NotFound | Forbidden | BadRequest | InternalError

  /** The status code of each error. */
  function StatusCode(e: HttpError): int {
    match e
    case Unauthorized => 401
    case NotFound => 404
    case Forbidden => 403
    case BadRequest => 400
    case InternalError => 500
  }

  /** `_check_can_access_image_members`: an authenticated owner or an administrator. */
  predicate CanAccessImageMembers(ctx: Context) {
    ctx.owner.Some? || ctx.isAdmin
  }

  /**
   * The checks every membership change makes before reading its body, in
   * order: the caller (401), the image (404, also when the image exists
   * but is hidden from the caller) and the right to share it (403).
   */
  function Guard(ctx: Context, image: ImageLookup): (r: Option<HttpError>)
    ensures r.None? <==> CanAccessImageMembers(ctx) && image == Found(true)
    ensures r == Some(Unauthorized) <==> !CanAccessImageMembers(ctx)
    ensures r == Some(NotFound) <==> CanAccessImageMembers(ctx) && !image.Found?
    ensures r == Some(Forbidden) <==> CanAccessImageMembers(ctx) && image == Found(false)
    ensures r != Some(BadRequest)
  {
    if !CanAccessImageMembers(ctx) then Some(Unauthorized)
    else
      match image
      case ImageNotFound => Some(NotFound)
      case ImageForbidden => Some(NotFound)
      case Found(sharable) => if sharable then None else Some(Forbidden)
  }

  /** A caller cannot tell an image hidden from it from a missing one. */
  lemma HiddenImageLooksMissing(ctx: Context)
    ensures Guard(ctx, ImageForbidden) == Guard(ctx, ImageNotFound)
    ensures Guard(ctx, ImageForbidden) != Some(Forbidden)
  {
  }

  /** One entry of the `memberships` list of an `update_all` body. */
  datatype Entry = Entry(memberId: Option<MemberId>, canShare: Option<bool>)

  /**
   * The `can_share` a mentioned member ends up with: the value given, else
   * the member's current one, else False for a new member.
   */
  function Resolve(table: Table, member: MemberId, canShare: Option<bool>): bool {
    match canShare
    case Some(given) => given
    case None => if member in table then table[member] else false
  }

  /** Every entry names a member. */
  predicate AllIdentified(entries: seq<Entry>) {
    forall i :: 0 <= i < |entries| ==> entries[i].memberId.Some?
  }

  /** The members the entries name. */
  function MentionedIds(entries: seq<Entry>): set<MemberId> {
    set i | 0 <= i < |entries| && entries[i].memberId.Some? :: entries[i].memberId.value
  }

  /** One more entry names at most one more member. */
  lemma MentionedIdsSnoc(entries: seq<Entry>, e: Entry)
    ensures MentionedIds(entries + [e]) == MentionedIds(entries) + (if e.memberId.Some? then {e.memberId.value} else {})
  {
    var all := entries + [e];
    forall m | m in MentionedIds(all)
      ensures m in MentionedIds(entries) + (if e.memberId.Some? then {e.memberId.value} else {})
    {
      var i :| 0 <= i < |all| && all[i].memberId.Some? && all[i].memberId.value == m;
      if i < |entries| {
        assert entries[i] == all[i];
      }
    }
    assert all[|entries|] == e;
    forall m | m in MentionedIds(entries) ensures m in MentionedIds(all) {
      var i :| 0 <= i < |entries| && entries[i].memberId.Some? && entries[i].memberId.value == m;
      assert all[i] == entries[i];
    }
  }

  /** Entry `i` is the last one naming its member. */
  ghost predicate LastMention(entries: seq<Entry>, i: int) {
    && 0 <= i < |entries|
    && entries[i].memberId.Some?
    && forall j :: i < j < |entries| ==> entries[j].memberId != entries[i].memberId
  }

  /**
   * What `update_all` promises: the image is shared with exactly the
   * members named, each with the `can_share` of the last entry naming it.
   */
  ghost predicate Reconciled(table: Table, entries: seq<Entry>, result: Table) {
    && result.Keys == MentionedIds(entries)
    && forall i :: LastMention(entries, i) ==>
         var id := entries[i].memberId.value;
         id in result && result[id] == Resolve(table, id, entries[i].canShare)
  }

  /** The changes `update_all` works out before touching the memberships. */
  datatype Plan = Plan(updates: map<MemberId, bool>, adds: seq<(MemberId, bool)>)

  /** The members a list of additions creates. */
  function AddedIds(adds: seq<(MemberId, bool)>): set<MemberId> {
    set i | 0 <= i < |adds| :: adds[i].0
  }

  /** One more addition adds its member. */
  lemma AddedIdsSnoc(adds: seq<(MemberId, bool)>, x: (MemberId, bool))
    ensures AddedIds(adds + [x]) == AddedIds(adds) + {x.0}
  {
    var all := adds + [x];
    forall m | m in AddedIds(all) ensures m in AddedIds(adds) + {x.0} {
      var i :| 0 <= i < |all| && all[i].0 == m;
      if i < |adds| {
        assert adds[i] == all[i];
      }
    }
    assert all[|adds|] == x;
    forall m | m in AddedIds(adds) ensures m in AddedIds(all) {
      var i :| 0 <= i < |adds| && adds[i].0 == m;
      assert all[i] == adds[i];
    }
  }

  /** Updates touch existing members only; additions only new ones. */
  predicate FitsTable(table: Table, plan: Plan) {
    plan.updates.Keys <= table.Keys && AddedIds(plan.adds) !! table.Keys
  }

  /**
   * The walk over the incoming memberships: each named member that exists
   * is to be updated, each that does not is to be added; an entry without a
   * member id is a bad request.
   */
  function Partition(table: Table, entries: seq<Entry>): (r: Result<Plan, HttpError>)
    ensures r.Ok? <==> AllIdentified(entries)
    ensures r.Err? ==> r.error == BadRequest
    ensures r.Ok? ==> FitsTable(table, r.value)
    ensures r.Ok? ==> r.value.updates.Keys == MentionedIds(entries) * table.Keys
    ensures r.Ok? ==> AddedIds(r.value.adds) == MentionedIds(entries) - table.Keys
    decreases |entries|
  {
    if |entries| == 0 then Ok(Plan(map[], []))
    else
      var n := |entries| - 1;
      var prefix := entries[..n];
      assert entries == prefix + [entries[n]];
      MentionedIdsSnoc(prefix, entries[n]);
      match Partition(table, prefix)
      case Err(e) => Err(e)
      case Ok(plan) =>
        match entries[n].memberId
        case None => Err(BadRequest)
        case Some(id) =>
          var v := Resolve(table, id, entries[n].canShare);
          if id in table then Ok(plan.(updates := plan.updates[id := v]))
          else
            var adds := plan.adds + [(id, v)];
            AddedIdsSnoc(plan.adds, (id, v));
            Ok(plan.(adds := adds))
  }

  /** The additions, made in order; a member added twice keeps the later value. */
  function ApplyAdds(t: Table, adds: seq<(MemberId, bool)>): (r: Table)
    ensures r.Keys == t.Keys + AddedIds(adds)
    ensures forall k :: k in t && k !in AddedIds(adds) ==> r[k] == t[k]
    decreases |adds|
  {
    if |adds| == 0 then t
    else
      var n := |adds| - 1;
      assert adds == adds[..n] + [adds[n]];
      AddedIdsSnoc(adds[..n], adds[n]);
      ApplyAdds(t, adds[..n])[adds[n].0 := adds[n].1]
  }

  /**
   * Carrying out a plan: every existing membership with an update is
   * updated in place, every other existing one is deleted, and the
   * additions are created.
   */
  function ApplyPlan(table: Table, plan: Plan): (r: Table)
    requires FitsTable(table, plan)
    ensures r.Keys == plan.updates.Keys + AddedIds(plan.adds)
    ensures forall m :: m in table && m !in plan.updates ==> m !in r
    ensures forall m :: m in plan.updates ==> r[m] == plan.updates[m]
  {
    var kept := map m | m in table && m in plan.updates :: plan.updates[m];
    assert kept.Keys == plan.updates.Keys;
    ApplyAdds(kept, plan.adds)
  }

  /** Additions never naming `id` commute with setting `id`. */
  lemma {:induction false} ApplyAddsSetOther(t: Table, adds: seq<(MemberId, bool)>, id: MemberId, v: bool)
    requires id !in AddedIds(adds)
    ensures ApplyAdds(t[id := v], adds) == ApplyAdds(t, adds)[id := v]
    decreases |adds|
  {
    if |adds| > 0 {
      var n := |adds| - 1;
      assert adds == adds[..n] + [adds[n]];
      AddedIdsSnoc(adds[..n], adds[n]);
      ApplyAddsSetOther(t, adds[..n], id, v);
      SetsCommute(ApplyAdds(t, adds[..n]), id, v, adds[n].0, adds[n].1);
    }
  }

  /** Setting two different keys in either order gives the same map. */
  lemma SetsCommute(m: Table, a: MemberId, x: bool, b: MemberId, y: bool)
    requires a != b
    ensures m[a := x][b := y] == m[b := y][a := x]
  {
  }

  /** An update of an existing member sets that member in the outcome. */
  lemma ApplyPlanUpdateStep(table: Table, plan: Plan, id: MemberId, v: bool)
    requires FitsTable(table, plan) && id in table
    ensures FitsTable(table, plan.(updates := plan.updates[id := v]))
    ensures ApplyPlan(table, plan.(updates := plan.updates[id := v])) == ApplyPlan(table, plan)[id := v]
  {
    var plan' := plan.(updates := plan.updates[id := v]);
    var kept := map m | m in table && m in plan.updates :: plan.updates[m];
    var kept' := map m | m in table && m in plan'.updates :: plan'.updates[m];
    assert kept' == kept[id := v];
    ApplyAddsSetOther(kept, plan.adds, id, v);
  }

  /** An addition of a new member sets that member in the outcome. */
  lemma ApplyPlanAddStep(table: Table, plan: Plan, id: MemberId, v: bool)
    requires FitsTable(table, plan) && id !in table
    ensures FitsTable(table, plan.(adds := plan.adds + [(id, v)]))
    ensures ApplyPlan(table, plan.(adds := plan.adds + [(id, v)])) == ApplyPlan(table, plan)[id := v]
  {
    AddedIdsSnoc(plan.adds, (id, v));
    assert (plan.adds + [(id, v)])[..|plan.adds|] == plan.adds;
  }

  /** Planning one more named entry: an update when the member exists, an addition otherwise. */
  lemma PartitionSnoc(table: Table, entries: seq<Entry>, plan: Plan, id: MemberId, canShare: Option<bool>)
    requires Partition(table, entries) == Ok(plan)
    ensures var v := Resolve(table, id, canShare);
            Partition(table, entries + [Entry(Some(id), canShare)])
            == Ok(if id in table then plan.(updates := plan.updates[id := v]) else plan.(adds := plan.adds + [(id, v)]))
  {
    var all := entries + [Entry(Some(id), canShare)];
    assert all[..|entries|] == entries;
    assert all[|entries|] == Entry(Some(id), canShare);
  }

  /** Planning one more named entry sets that member in the outcome. */
  lemma ApplyPlanStep(table: Table, entries: seq<Entry>, plan: Plan, id: MemberId, canShare: Option<bool>)
    requires Partition(table, entries) == Ok(plan)
    ensures Partition(table, entries + [Entry(Some(id), canShare)]).Ok?
    ensures ApplyPlan(table, Partition(table, entries + [Entry(Some(id), canShare)]).value)
            == ApplyPlan(table, plan)[id := Resolve(table, id, canShare)]
  {
    PartitionSnoc(table, entries, plan, id, canShare);
    var v := Resolve(table, id, canShare);
    if id in table {
      ApplyPlanUpdateStep(table, plan, id, v);
    } else {
      ApplyPlanAddStep(table, plan, id, v);
    }
  }

  /** Setting the member of one more entry keeps the promise for the longer list. */
  lemma ReconciledStep(table: Table, entries: seq<Entry>, result: Table, id: MemberId, canShare: Option<bool>)
    requires Reconciled(table, entries, result)
    ensures Reconciled(table, entries + [Entry(Some(id), canShare)], result[id := Resolve(table, id, canShare)])
  {
    var all := entries + [Entry(Some(id), canShare)];
    var result' := result[id := Resolve(table, id, canShare)];
    MentionedIdsSnoc(entries, Entry(Some(id), canShare));
    forall i | LastMention(all, i)
      ensures all[i].memberId.value in result'
      ensures result'[all[i].memberId.value] == Resolve(table, all[i].memberId.value, all[i].canShare)
    {
      if i < |entries| {
        assert all[|entries|].memberId != all[i].memberId;
        assert all[i] == entries[i];
        forall j | i < j < |entries| ensures entries[j].memberId != entries[i].memberId {
          assert all[j] == entries[j];
        }
        assert LastMention(entries, i);
      }
    }
  }

  /** Partitioning and then applying the plan keeps the promise of `update_all`. */
  lemma {:induction false} PartitionApplyReconciles(table: Table, entries: seq<Entry>)
    requires AllIdentified(entries)
    ensures Partition(table, entries).Ok?
    ensures Reconciled(table, entries, ApplyPlan(table, Partition(table, entries).value))
    decreases |entries|
  {
    if |entries| == 0 {
      assert MentionedIds(entries) == {};
    } else {
      var n := |entries| - 1;
      var prefix := entries[..n];
      assert entries == prefix + [Entry(Some(entries[n].memberId.value), entries[n].canShare)];
      PartitionApplyReconciles(table, prefix);
      var plan := Partition(table, prefix).value;
      ApplyPlanStep(table, prefix, plan, entries[n].memberId.value, entries[n].canShare);
      ReconciledStep(table, prefix, ApplyPlan(table, plan), entries[n].memberId.value, entries[n].canShare);
    }
  }

  /**
   * `update_all`: replace the members of the image with those named in the
   * body's `memberships` list.
   */
  function UpdateAll(ctx: Context, image: ImageLookup, table: Table, memberships: Option<seq<Entry>>): (r: Result<Table, HttpError>)
    ensures Guard(ctx, image).Some? ==> r == Err(Guard(ctx, image).value)
    ensures Guard(ctx, image).None? && memberships.None? ==> r == Err(BadRequest)
    ensures Guard(ctx, image).None? && memberships.Some? ==>
              (r.Ok? <==> AllIdentified(memberships.value)) && (r.Err? ==> r.error == BadRequest)
    ensures r.Ok? ==> memberships.Some? && Reconciled(table, memberships.value, r.value)
  {
    match Guard(ctx, image)
    case Some(e) => Err(e)
    case None =>
      match memberships
      case None => Err(BadRequest)
      case Some(entries) =>
        match Partition(table, entries)
        case Err(e) => Err(e)
        case Ok(plan) =>
          PartitionApplyReconciles(table, entries);
          Ok(ApplyPlan(table, plan))
  }

  /** The promise of `update_all`, membership by membership. */
  lemma UpdateAllOutcomes(ctx: Context, image: ImageLookup, table: Table, entries: seq<Entry>, m: MemberId)
    requires UpdateAll(ctx, image, table, Some(entries)).Ok?
    ensures var result := UpdateAll(ctx, image, table, Some(entries)).value;
            && (m in table && m !in MentionedIds(entries) ==> m !in result)
            && (m in MentionedIds(entries) ==> m in result)
  {
  }

  /** Every member named has a last entry naming it. */
  lemma {:induction false} LastMentionExists(entries: seq<Entry>, m: MemberId) returns (i: int)
    requires m in MentionedIds(entries)
    ensures LastMention(entries, i) && entries[i].memberId == Some(m)
    decreases |entries|
  {
    var n := |entries| - 1;
    if entries[n].memberId == Some(m) {
      i := n;
    } else {
      var prefix := entries[..n];
      assert m in MentionedIds(prefix) by {
        var k :| 0 <= k < |entries| && entries[k].memberId.Some? && entries[k].memberId.value == m;
        assert k < n && prefix[k] == entries[k];
      }
      i := LastMentionExists(prefix, m);
      assert entries[i] == prefix[i];
    }
  }

  /** The promise of `update_all` pins the outcome down. */
  lemma ReconciledUnique(table: Table, entries: seq<Entry>, t1: Table, t2: Table)
    requires Reconciled(table, entries, t1) && Reconciled(table, entries, t2)
    ensures t1 == t2
  {
    forall m | m in t1 ensures t1[m] == t2[m] {
      var i := LastMentionExists(entries, m);
    }
  }

  /** Sending the same `update_all` body twice changes nothing the second time. */
  lemma UpdateAllIdempotent(ctx: Context, image: ImageLookup, table: Table, entries: seq<Entry>)
    requires UpdateAll(ctx, image, table, Some(entries)).Ok?
    ensures var once := UpdateAll(ctx, image, table, Some(entries)).value;
            UpdateAll(ctx, image, once, Some(entries)) == Ok(once)
  {
    var once := UpdateAll(ctx, image, table, Some(entries)).value;
    var twice := UpdateAll(ctx, image, once, Some(entries)).value;
    forall i | LastMention(entries, i)
      ensures Resolve(once, entries[i].memberId.value, entries[i].canShare)
              == Resolve(table, entries[i].memberId.value, entries[i].canShare)
    {
    }
    assert Reconciled(table, entries, twice);
    ReconciledUnique(table, entries, once, twice);
  }

  /** The body of `update`: none (or empty), or a `member` object that may carry `can_share`. */
  datatype UpdateBody = NoBody | MemberBody(canShare: Option<bool>)

  /**
   * `update`: add the member to the image, or change its `can_share`. A
   * body without `member.can_share` is a bad request.
   */
  function Update(ctx: Context, image: ImageLookup, table: Table, member: MemberId, body: UpdateBody): (r: Result<Table, HttpError>)
    ensures Guard(ctx, image).Some? ==> r == Err(Guard(ctx, image).value)
    ensures Guard(ctx, image).None? ==> (r.Err? <==> body == MemberBody(None)) && (r.Err? ==> r.error == BadRequest)
    ensures r.Ok? ==> r.value.Keys == table.Keys + {member}
    ensures r.Ok? ==> forall m :: m in table && m != member ==> r.value[m] == table[m]
    ensures r.Ok? && body == NoBody && member in table ==> r.value == table
    ensures r.Ok? && body.MemberBody? ==> r.value[member] == body.canShare.value
    ensures r.Ok? && body == NoBody && member !in table ==> !r.value[member]
  {
    match Guard(ctx, image)
    case Some(e) => Err(e)
    case None =>
      match body
      case MemberBody(None) => Err(BadRequest)
      case MemberBody(Some(canShare)) => Ok(table[member := canShare])
      case NoBody => if member in table then Ok(table) else Ok(table[member := false])
  }

  /** `update` settles `can_share` the way `update_all` does for a single entry. */
  lemma UpdateResolvesLikeUpdateAll(ctx: Context, image: ImageLookup, table: Table, member: MemberId, body: UpdateBody)
    requires Update(ctx, image, table, member, body).Ok?
    ensures var canShare := if body.MemberBody? then body.canShare else None;
            Update(ctx, image, table, member, body).value[member] == Resolve(table, member, canShare)
  {
  }

  /** Repeating an `update` changes nothing. */
  lemma UpdateIdempotent(ctx: Context, image: ImageLookup, table: Table, member: MemberId, body: UpdateBody)
    requires Update(ctx, image, table, member, body).Ok?
    ensures var once := Update(ctx, image, table, member, body).value;
            Update(ctx, image, once, member, body) == Ok(once)
  {
    var once := Update(ctx, image, table, member, body).value;
    if body.MemberBody? {
      assert once[member := body.canShare.value] == once;
    }
  }

  /**
   * `delete`: remove the member from the image. A member without a
   * membership leaves `members[0]` to raise an IndexError that nothing
   * catches, so the server answers 500.
   */
  function DeleteMember(ctx: Context, image: ImageLookup, table: Table, member: MemberId): (r: Result<Table, HttpError>)
    ensures Guard(ctx, image).Some? ==> r == Err(Guard(ctx, image).value)
    ensures Guard(ctx, image).None? ==> (r.Ok? <==> member in table) && (r.Err? ==> r.error == InternalError)
    ensures r.Ok? ==> r.value.Keys == table.Keys - {member}
    ensures r.Ok? ==> forall m :: m in r.value ==> r.value[m] == table[m]
  {
    match Guard(ctx, image)
    case Some(e) => Err(e)
    case None => if member in table then Ok(table - {member}) else Err(InternalError)
  }

  /**
   * Adding a new member with `update` and removing it with `delete` gives
   * the memberships back as they were.
   */
  lemma DeleteUndoesNewMember(ctx: Context, image: ImageLookup, table: Table, member: MemberId, body: UpdateBody)
    requires member !in table
    requires Update(ctx, image, table, member, body).Ok?
    ensures DeleteMember(ctx, image, Update(ctx, image, table, member, body).value, member) == Ok(table)
  {
    var once := Update(ctx, image, table, member, body).value;
    assert once - {member} == table;
  }

  /** A second `delete` of the same member finds no membership. */
  lemma DeleteTwiceFails(ctx: Context, image: ImageLookup, table: Table, member: MemberId)
    requires DeleteMember(ctx, image, table, member).Ok?
    ensures DeleteMember(ctx, image, DeleteMember(ctx, image, table, member).value, member) == Err(InternalError)
  {
  }

  /** A database row: soft-deleted or not, and its attributes. */
  datatype Row<V> = Row(deleted: bool, attrs: map<string, V>)

  /** One row as a dict: each output name whose mapped attribute the row has, with that value. */
  function FetchMember<V>(row: Row<V>, attrMap: map<string, string>): (m: map<string, V>)
    ensures forall k :: k in m <==> k in attrMap && attrMap[k] in row.attrs
    ensures forall k :: k in m ==> m[k] == row.attrs[attrMap[k]]
  {
    map k | k in attrMap && attrMap[k] in row.attrs :: row.attrs[attrMap[k]]
  }

  /** `make_member_list`: the rows not deleted, in order, each as a dict. */
  function MakeMemberList<V>(rows: seq<Row<V>>, attrMap: map<string, string>): (r: seq<map<string, V>>)
    ensures |r| <= |rows|
    ensures forall i :: 0 <= i < |r| ==> r[i].Keys <= attrMap.Keys
    ensures (forall i :: 0 <= i < |rows| ==> !rows[i].deleted) ==>
              |r| == |rows| && forall i :: 0 <= i < |r| ==> r[i] == FetchMember(rows[i], attrMap)
    ensures (forall i :: 0 <= i < |rows| ==> rows[i].deleted) ==> r == []
    decreases |rows|
  {
    if |rows| == 0 then []
    else
      var rest := MakeMemberList(rows[1..], attrMap);
      if rows[0].deleted then rest else [FetchMember(rows[0], attrMap)] + rest
  }

  /** Listing two runs of rows one after the other lists each run in turn. */
  lemma {:induction false} MakeMemberListAppend<V>(a: seq<Row<V>>, b: seq<Row<V>>, attrMap: map<string, string>)
    ensures MakeMemberList(a + b, attrMap) == MakeMemberList(a, attrMap) + MakeMemberList(b, attrMap)
    decreases |a|
  {
    if |a| > 0 {
      assert (a + b)[1..] == a[1..] + b;
      MakeMemberListAppend(a[1..], b, attrMap);
    } else {
      assert a + b == b;
    }
  }

  /** A single row is listed exactly when it is not deleted. */
  lemma MakeMemberListSingle<V>(row: Row<V>, attrMap: map<string, string>)
    ensures MakeMemberList([row], attrMap) == if row.deleted then [] else [FetchMember(row, attrMap)]
  {
  }
}
