/** The purchase ledger of the server (server/controllers/purchase.mjs):
    a student buying a textbook, and the read endpoints over the ledger,
    each behind its own role or ownership rule. The `Purchase` collection
    is a sequence of records held by a ledger object; the textbook
    collection is read from the catalog as a sequence. */
module Purchases {
  import opened Common
  import opened Api
  import Catalog

  /** A stored purchase; `id` and `createdAt` are assigned on save. */
  datatype Purchase = Purchase(id: string, textbookId: string, studentId: string, amount: int, createdAt: int)

  /** The request body of `createPurchase`; a missing key is `None`. */
  datatype PurchaseBody = PurchaseBody(textbookId: Option<string>, amount: Option<int>)

  const MissingPurchaseFields := "Please provide textbookId and amount"
  const OnlyStudents := "Only students can purchase textbooks"
  const AlreadyPurchased := "You have already purchased this textbook"
  const AmountMismatch := "Amount does not match textbook price"
  const PurchaseNotFound := "Purchase not found"
  const NotAuthorizedPurchase := "Not authorized to view this purchase"
  const NotAuthorizedStudent := "Not authorized to view student purchases"
  const NotAuthorizedTextbook := "Not authorized to view purchases for this textbook"
  const NotAuthorizedStats := "Not authorized to view purchase statistics"
  const NotAuthorizedLecturer := "Not authorized to view purchases for this lecturer"
  const NoTextbooksNote := "No textbooks found for this lecturer"
  const NotAdmin := "Not authorized as an admin"

  /** No two records share an id. */
  predicate UniqueIds(ps: seq<Purchase>) {
    forall i, j :: 0 <= i < j < |ps| ==> ps[i].id != ps[j].id
  }

  /** `p` records `studentId` buying `textbookId`. */
  predicate IsPair(p: Purchase, studentId: string, textbookId: string) {
    p.studentId == studentId && p.textbookId == textbookId
  }

  /** At most one record per student and textbook. */
  predicate NoDuplicatePairs(ps: seq<Purchase>) {
    forall i, j :: 0 <= i < j < |ps| ==> !IsPair(ps[j], ps[i].studentId, ps[i].textbookId)
  }

  /** Some record pairs `studentId` with `textbookId`. */
  predicate HasPair(ps: seq<Purchase>, studentId: string, textbookId: string) {
    exists i :: 0 <= i < |ps| && IsPair(ps[i], studentId, textbookId)
  }

  /** `Purchase.findOne({ textbookId, studentId })`: the first matching record. */
  function FindPair(ps: seq<Purchase>, studentId: string, textbookId: string): (r: Option<nat>)
    ensures r.Some? ==> r.value < |ps| && IsPair(ps[r.value], studentId, textbookId)
    ensures r.Some? ==> forall j :: 0 <= j < r.value ==> !IsPair(ps[j], studentId, textbookId)
    ensures r.None? <==> !HasPair(ps, studentId, textbookId)
  {
    if ps == [] then None
    else if IsPair(ps[0], studentId, textbookId) then Some(0)
    else match FindPair(ps[1..], studentId, textbookId)
      case None =>
        assert forall i :: 1 <= i < |ps| ==> ps[i] == ps[1..][i - 1];
        None
      case Some(k) => Some(k + 1)
  }

  /** `Purchase.findById(id)`: the position of the first record with `id`. */
  function FindPurchase(ps: seq<Purchase>, id: string): (r: Option<nat>)
    ensures r.Some? ==> r.value < |ps| && ps[r.value].id == id
    ensures r.None? <==> forall j :: 0 <= j < |ps| ==> ps[j].id != id
  {
    if ps == [] then None
    else if ps[0].id == id then Some(0)
    else match FindPurchase(ps[1..], id)
      case None => None
      case Some(k) => Some(k + 1)
  }

  /** `Textbook.findById(id)` on the catalog: the first record with `id`, or null. */
  function FindTextbook(ts: seq<Catalog.Textbook>, id: string): (r: Option<Catalog.Textbook>)
    ensures r.Some? ==> r.value in ts && r.value.id == id
    ensures r.None? <==> forall t :: t in ts ==> t.id != id
  {
    match Catalog.FindIndex(ts, id)
    case None => None
    case Some(j) => Some(ts[j])
  }

  /** `purchases.reduce((sum, p) => sum + p.amount, 0)`. */
  function Revenue(ps: seq<Purchase>): int {
    SumOf(ps, (p: Purchase) => p.amount)
  }

  /** The sum starts at 0, counts one record's amount, and adds up over
      concatenation: it is the total of every record's amount. */
  lemma RevenueAdds(a: seq<Purchase>, b: seq<Purchase>, p: Purchase)
    ensures Revenue([]) == 0 && Revenue([p]) == p.amount
    ensures Revenue(a + b) == Revenue(a) + Revenue(b)
  {
    SumAppend(a, b, (x: Purchase) => x.amount);
    assert [p][1..] == [];
  }

  /** When nothing passes a filter, the filter is empty. */
  lemma {:induction false} FilterNothing(ps: seq<Purchase>, p: Purchase -> bool)
    requires forall x :: x in ps ==> !p(x)
    ensures Filter(ps, p) == []
  {
    if ps != [] {
      assert ps[0] in ps;
      FilterNothing(ps[1..], p);
    }
  }

  // ---------------------------------------------------------------------
  // createPurchase
  // ---------------------------------------------------------------------

  /** The body's two values are truthy (an amount of 0 is falsy). */
  predicate HasPurchaseFields(body: PurchaseBody) {
    Truthy(body.textbookId) && body.amount.Some? && body.amount.value != 0
  }

  /** The guards of `createPurchase`, in the order the handler runs them:
      the textbook the purchase is for, or the first guard that fails. */
  function CheckCreatePurchase(caller: Principal, body: PurchaseBody, textbooks: seq<Catalog.Textbook>,
                               ps: seq<Purchase>): (r: Result<Catalog.Textbook, ApiError>)
    ensures !HasPurchaseFields(body) ==> r == Err(BadRequest(MissingPurchaseFields))
    ensures HasPurchaseFields(body) && caller.role != Student ==> r == Err(Forbidden(OnlyStudents))
    ensures HasPurchaseFields(body) && caller.role == Student && FindTextbook(textbooks, body.textbookId.value).None?
            ==> r == Err(NotFound(Catalog.TextbookNotFound))
    ensures (HasPurchaseFields(body) && caller.role == Student && FindTextbook(textbooks, body.textbookId.value).Some?
             && HasPair(ps, caller.id, body.textbookId.value)) ==> r == Err(BadRequest(AlreadyPurchased))
    ensures r.Ok? <==> && HasPurchaseFields(body) && caller.role == Student
                       && FindTextbook(textbooks, body.textbookId.value).Some?
                       && !HasPair(ps, caller.id, body.textbookId.value)
                       && body.amount.value == FindTextbook(textbooks, body.textbookId.value).value.price
    ensures (r.Err? && HasPurchaseFields(body) && caller.role == Student
             && FindTextbook(textbooks, body.textbookId.value).Some? && !HasPair(ps, caller.id, body.textbookId.value))
            ==> r == Err(BadRequest(AmountMismatch))
    ensures r.Ok? ==> r.value in textbooks && r.value.id == body.textbookId.value && r.value.price == body.amount.value
  {
    if !HasPurchaseFields(body) then Err(BadRequest(MissingPurchaseFields))
    else if caller.role != Student then Err(Forbidden(OnlyStudents))
    else match FindTextbook(textbooks, body.textbookId.value)
      case None => Err(NotFound(Catalog.TextbookNotFound))
      case Some(textbook) =>
        if FindPair(ps, caller.id, body.textbookId.value).Some? then Err(BadRequest(AlreadyPurchased))
        else if body.amount.value != textbook.price then Err(BadRequest(AmountMismatch))
        else Ok(textbook)
  }

  /** A student who already holds a record for a textbook is refused a
      second one, whatever they send. */
  lemma SecondPurchaseRejected(caller: Principal, body: PurchaseBody, textbooks: seq<Catalog.Textbook>,
                               ps: seq<Purchase>)
    requires body.textbookId.Some? && HasPair(ps, caller.id, body.textbookId.value)
    ensures CheckCreatePurchase(caller, body, textbooks, ps).Err?
  {
  }

  /** A textbook priced 0 (possible after an update) cannot be bought: an
      amount of 0 is refused as missing, any other amount as a mismatch. */
  lemma {:induction false} FreeTextbookUnpurchasable(caller: Principal, body: PurchaseBody,
                                                     textbooks: seq<Catalog.Textbook>, ps: seq<Purchase>)
    requires body.textbookId.Some? && forall t :: t in textbooks && t.id == body.textbookId.value ==> t.price == 0
    ensures CheckCreatePurchase(caller, body, textbooks, ps).Err?
  {
    var found := FindTextbook(textbooks, body.textbookId.value);
    if found.Some? {
      assert found.value.price == 0;
    }
  }

  /** Appending a purchase that passed the guards keeps one record per pair. */
  lemma {:induction false} AcceptedKeepsPairsUnique(ps: seq<Purchase>, p: Purchase)
    requires NoDuplicatePairs(ps) && !HasPair(ps, p.studentId, p.textbookId)
    ensures NoDuplicatePairs(ps + [p])
  {
    var r := ps + [p];
    forall i, j | 0 <= i < j < |r| ensures !IsPair(r[j], r[i].studentId, r[i].textbookId) {
      if j == |ps| {
        assert r[i] == ps[i];
        assert !IsPair(ps[i], p.studentId, p.textbookId);
      } else {
        assert r[i] == ps[i] && r[j] == ps[j];
      }
    }
  }

  /** After a successful purchase, its status check reports it. */
  lemma PurchaseThenStatus(ps: seq<Purchase>, p: Purchase)
    ensures CheckPurchaseStatus(ps + [p], p.studentId, p.textbookId).hasPurchased
  {
    assert IsPair((ps + [p])[|ps|], p.studentId, p.textbookId);
  }

  // ---------------------------------------------------------------------
  // Read endpoints
  // ---------------------------------------------------------------------

  /** `getPurchaseById`: 404 for an unknown id whoever asks; then only an
      administrator or the buying student may see the record. */
  function GetPurchaseById(caller: Principal, ps: seq<Purchase>, id: string): (r: Result<Purchase, ApiError>)
    ensures (forall j :: 0 <= j < |ps| ==> ps[j].id != id) ==> r == Err(NotFound(PurchaseNotFound))
    ensures r.Ok? ==> r.value in ps && r.value.id == id && (caller.role == Admin || r.value.studentId == caller.id)
    ensures r.Err? && (exists j :: 0 <= j < |ps| && ps[j].id == id) ==> r == Err(Forbidden(NotAuthorizedPurchase))
  {
    match FindPurchase(ps, id)
    case None => Err(NotFound(PurchaseNotFound))
    case Some(j) =>
      if caller.role != Admin && ps[j].studentId != caller.id then Err(Forbidden(NotAuthorizedPurchase))
      else Ok(ps[j])
  }

  /** With unique ids, the record is shown exactly to administrators and
      to the student who bought it. */
  lemma PurchaseVisibility(caller: Principal, ps: seq<Purchase>, j: nat)
    requires UniqueIds(ps) && j < |ps|
    ensures GetPurchaseById(caller, ps, ps[j].id).Ok? <==> caller.role == Admin || ps[j].studentId == caller.id
    ensures GetPurchaseById(caller, ps, ps[j].id).Ok? ==> GetPurchaseById(caller, ps, ps[j].id).value == ps[j]
  {
    var k := FindPurchase(ps, ps[j].id).value;
    assert ps[k].id == ps[j].id;
  }

  /** The records of `studentId`, in ledger order. */
  function ByStudent(ps: seq<Purchase>, studentId: string): (r: seq<Purchase>)
    ensures |r| <= |ps|
    ensures forall p :: p in r <==> p in ps && p.studentId == studentId
  {
    Filter(ps, (p: Purchase) => p.studentId == studentId)
  }

  /** `getPurchasesByStudent`: allowed to administrators and lecturers only. */
  function GetPurchasesByStudent(caller: Principal, ps: seq<Purchase>, studentId: string)
    : (r: Result<seq<Purchase>, ApiError>)
    ensures r.Ok? <==> IsStaff(caller)
    ensures r.Err? ==> r.error == Forbidden(NotAuthorizedStudent)
    ensures r.Ok? ==> forall p :: p in r.value <==> p in ps && p.studentId == studentId
    ensures r.Ok? ==> r.value == ByStudent(ps, studentId)
  {
    if !IsStaff(caller) then Err(Forbidden(NotAuthorizedStudent)) else Ok(ByStudent(ps, studentId))
  }

  /** A purchase with the textbook it is for, or null when no such textbook is stored. */
  datatype PurchaseDetail = PurchaseDetail(purchase: Purchase, textbook: Option<Catalog.Textbook>)

  /** `getMyPurchases`: the caller's records, each with its textbook. */
  function GetMyPurchases(caller: Principal, textbooks: seq<Catalog.Textbook>, ps: seq<Purchase>)
    : (r: seq<PurchaseDetail>)
    ensures |r| == |ByStudent(ps, caller.id)|
    ensures forall i :: 0 <= i < |r| ==> r[i].purchase in ps && r[i].purchase.studentId == caller.id
    ensures forall i :: 0 <= i < |r| ==> r[i].purchase == ByStudent(ps, caller.id)[i]
    ensures forall i :: 0 <= i < |r| ==> r[i].textbook == FindTextbook(textbooks, r[i].purchase.textbookId)
  {
    var mine := ByStudent(ps, caller.id);
    assert forall i :: 0 <= i < |mine| ==> mine[i] in mine;
    Map(mine, (p: Purchase) => PurchaseDetail(p, FindTextbook(textbooks, p.textbookId)))
  }

  /** What `getPurchasesByTextbook` reports. */
  datatype TextbookSales = TextbookSales(count: nat, totalRevenue: int, data: seq<Purchase>)

  /** The records of one textbook, in ledger order. */
  function ForTextbook(ps: seq<Purchase>, textbookId: string): (r: seq<Purchase>)
    ensures |r| <= |ps|
    ensures forall p :: p in r <==> p in ps && p.textbookId == textbookId
  {
    Filter(ps, (p: Purchase) => p.textbookId == textbookId)
  }

  /** Each record of a student, or of a textbook, is listed exactly as often
      as it is stored, and no other record is listed. */
  lemma LedgerQueriesCount(ps: seq<Purchase>, studentId: string, textbookId: string, p: Purchase)
    ensures multiset(ByStudent(ps, studentId))[p] == if p.studentId == studentId then multiset(ps)[p] else 0
    ensures multiset(ForTextbook(ps, textbookId))[p] == if p.textbookId == textbookId then multiset(ps)[p] else 0
  {
    FilterMultiplicity(ps, (x: Purchase) => x.studentId == studentId, p);
    FilterMultiplicity(ps, (x: Purchase) => x.textbookId == textbookId, p);
  }

  /** Both queries keep ledger order. */
  lemma LedgerQueriesKeepOrder(front: seq<Purchase>, back: seq<Purchase>, studentId: string, textbookId: string)
    ensures ByStudent(front + back, studentId) == ByStudent(front, studentId) + ByStudent(back, studentId)
    ensures ForTextbook(front + back, textbookId) == ForTextbook(front, textbookId) + ForTextbook(back, textbookId)
  {
    FilterAppend(front, back, (x: Purchase) => x.studentId == studentId);
    FilterAppend(front, back, (x: Purchase) => x.textbookId == textbookId);
  }

  /** The revenue of one textbook. */
  function TextbookRevenue(ps: seq<Purchase>, textbookId: string): int {
    Revenue(ForTextbook(ps, textbookId))
  }

  /** Whether `caller` may read the sales of `textbook`: an administrator,
      or the lecturer who owns it. */
  predicate MaySeeTextbookSales(caller: Principal, textbook: Catalog.Textbook) {
    caller.role == Admin || (caller.role == Lecturer && textbook.lecturerId == caller.id)
  }

  /** `getPurchasesByTextbook`: 404 for an unknown textbook whoever asks;
      then the owner and administrators see its records and their sum. */
  function GetPurchasesByTextbook(caller: Principal, textbooks: seq<Catalog.Textbook>, ps: seq<Purchase>,
                                  textbookId: string): (r: Result<TextbookSales, ApiError>)
    ensures FindTextbook(textbooks, textbookId).None? ==> r == Err(NotFound(Catalog.TextbookNotFound))
    ensures FindTextbook(textbooks, textbookId).Some? ==>
              (r.Ok? <==> MaySeeTextbookSales(caller, FindTextbook(textbooks, textbookId).value))
    ensures FindTextbook(textbooks, textbookId).Some? && r.Err? ==> r.error == Forbidden(NotAuthorizedTextbook)
    ensures r.Ok? ==> && r.value.count == |r.value.data|
                      && (forall p :: p in r.value.data <==> p in ps && p.textbookId == textbookId)
                      && r.value.totalRevenue == Revenue(r.value.data)
    ensures r.Ok? ==> r.value.data == ForTextbook(ps, textbookId) && r.value.totalRevenue == TextbookRevenue(ps, textbookId)
  {
    match FindTextbook(textbooks, textbookId)
    case None => Err(NotFound(Catalog.TextbookNotFound))
    case Some(textbook) =>
      if !MaySeeTextbookSales(caller, textbook) then Err(Forbidden(NotAuthorizedTextbook))
      else
        var data := ForTextbook(ps, textbookId);
        Ok(TextbookSales(|data|, Revenue(data), data))
  }

  /** `getAllPurchases` as the router mounts it, behind authentication
      only: every caller, whatever the role, receives every record. */
  function GetAllPurchasesAsMounted(caller: Principal, ps: seq<Purchase>): (r: Result<seq<Purchase>, ApiError>)
    ensures r.Ok? && r.value == ps
  {
    Ok(ps)
  }

  /** A student reads another student's purchase through the mounted list,
      although `getPurchaseById` refuses them that very record. */
  lemma MountedListShowsOthersPurchases()
    ensures var other := Purchase("p1", "t1", "s2", 10, 0);
      var caller := Principal("s1", Student);
      && GetAllPurchasesAsMounted(caller, [other]).Ok?
      && other in GetAllPurchasesAsMounted(caller, [other]).value
      && GetPurchaseById(caller, [other], "p1") == Err(Forbidden(NotAuthorizedPurchase))
  {
    assert FindPurchase([Purchase("p1", "t1", "s2", 10, 0)], "p1") == Some(0);
  }

  /** `getAllPurchases` behind an administrator check: administrators
      receive every record; anyone else is refused. */
  function GetAllPurchases(caller: Principal, ps: seq<Purchase>): (r: Result<seq<Purchase>, ApiError>)
    ensures r.Ok? <==> caller.role == Admin
    ensures r.Ok? ==> r.value == ps
    ensures r.Err? ==> r.error == Unauthorized(NotAdmin)
  {
    if caller.role != Admin then Err(Unauthorized(NotAdmin)) else Ok(ps)
  }

  /** The checked list shows a record only to a caller who may also read it
      by id, and never a record `getPurchaseById` would refuse. */
  lemma AllPurchasesAgreeWithById(caller: Principal, ps: seq<Purchase>, j: nat)
    requires UniqueIds(ps) && j < |ps|
    ensures GetAllPurchases(caller, ps).Ok? ==> GetPurchaseById(caller, ps, ps[j].id) == Ok(ps[j])
    ensures GetPurchaseById(caller, ps, ps[j].id).Err? ==> GetAllPurchases(caller, ps).Err?
  {
    PurchaseVisibility(caller, ps, j);
  }

  /** What `checkPurchaseStatus` reports. */
  datatype PurchaseStatus = PurchaseStatus(hasPurchased: bool, purchase: Option<Purchase>)

  /** `checkPurchaseStatus`: whether the student holds a record for the
      textbook, and the first such record. */
  function CheckPurchaseStatus(ps: seq<Purchase>, studentId: string, textbookId: string): (r: PurchaseStatus)
    ensures r.hasPurchased <==> HasPair(ps, studentId, textbookId)
    ensures r.hasPurchased <==> r.purchase.Some?
    ensures r.purchase.Some? ==> r.purchase.value in ps && IsPair(r.purchase.value, studentId, textbookId)
  {
    match FindPair(ps, studentId, textbookId)
    case None => PurchaseStatus(false, None)
    case Some(i) => PurchaseStatus(true, Some(ps[i]))
  }

  // ---------------------------------------------------------------------
  // Lecturer scope, statistics and the lecturer's sales
  // ---------------------------------------------------------------------

  /** `Textbook.find({ lecturerId })`. */
  function LecturerTextbooks(textbooks: seq<Catalog.Textbook>, lecturerId: string): (r: seq<Catalog.Textbook>)
    ensures forall t :: t in r <==> t in textbooks && t.lecturerId == lecturerId
  {
    Filter(textbooks, (t: Catalog.Textbook) => t.lecturerId == lecturerId)
  }

  /** `lecturerTextbooks.map((t) => t._id.toString())`. */
  function TextbookIds(ts: seq<Catalog.Textbook>): (ids: seq<string>)
    ensures forall id :: id in ids <==> exists t :: t in ts && t.id == id
  {
    var ids := Map(ts, (t: Catalog.Textbook) => t.id);
    assert forall id :: id in ids ==> exists t :: t in ts && t.id == id by {
      forall id | id in ids ensures exists t :: t in ts && t.id == id {
        var i :| 0 <= i < |ids| && ids[i] == id;
        assert ts[i] in ts;
      }
    }
    assert forall t :: t in ts ==> t.id in ids by {
      forall t | t in ts ensures t.id in ids {
        var i :| 0 <= i < |ts| && ts[i] == t;
        assert ids[i] == t.id;
      }
    }
    ids
  }

  /** `Purchase.find({ textbookId: { $in: ids } })`, in ledger order. */
  function ForTextbooks(ps: seq<Purchase>, ids: seq<string>): (r: seq<Purchase>)
    ensures |r| <= |ps|
    ensures forall p :: p in r <==> p in ps && p.textbookId in ids
  {
    Filter(ps, (p: Purchase) => p.textbookId in ids)
  }

  /** The lecturer's textbooks, and the records of a list of textbook ids,
      are each listed as often as stored, and nothing else is listed. */
  lemma LecturerQueriesCount(textbooks: seq<Catalog.Textbook>, lecturerId: string, t: Catalog.Textbook,
                             ps: seq<Purchase>, ids: seq<string>, p: Purchase)
    ensures multiset(LecturerTextbooks(textbooks, lecturerId))[t]
            == if t.lecturerId == lecturerId then multiset(textbooks)[t] else 0
    ensures multiset(ForTextbooks(ps, ids))[p] == if p.textbookId in ids then multiset(ps)[p] else 0
  {
    FilterMultiplicity(textbooks, (x: Catalog.Textbook) => x.lecturerId == lecturerId, t);
    FilterMultiplicity(ps, (x: Purchase) => x.textbookId in ids, p);
  }

  /** Both queries keep stored order. */
  lemma LecturerQueriesKeepOrder(front: seq<Catalog.Textbook>, back: seq<Catalog.Textbook>, lecturerId: string,
                                 early: seq<Purchase>, late: seq<Purchase>, ids: seq<string>)
    ensures LecturerTextbooks(front + back, lecturerId)
         == LecturerTextbooks(front, lecturerId) + LecturerTextbooks(back, lecturerId)
    ensures ForTextbooks(early + late, ids) == ForTextbooks(early, ids) + ForTextbooks(late, ids)
  {
    FilterAppend(front, back, (x: Catalog.Textbook) => x.lecturerId == lecturerId);
    FilterAppend(early, late, (x: Purchase) => x.textbookId in ids);
  }

  /** `textbookId` names a textbook of `lecturerId`. */
  ghost predicate OwnedBy(textbooks: seq<Catalog.Textbook>, lecturerId: string, textbookId: string) {
    exists t :: t in textbooks && t.lecturerId == lecturerId && t.id == textbookId
  }

  /** The records of the lecturer's own textbooks are exactly those whose
      textbook id is among the lecturer's textbook ids. */
  lemma OwnedIds(textbooks: seq<Catalog.Textbook>, lecturerId: string, textbookId: string)
    ensures textbookId in TextbookIds(LecturerTextbooks(textbooks, lecturerId))
            <==> OwnedBy(textbooks, lecturerId, textbookId)
  {
  }

  /** The records of the lecturer's textbooks, found through their ids. */
  lemma OwnedScope(textbooks: seq<Catalog.Textbook>, ps: seq<Purchase>, lecturerId: string)
    ensures forall p :: p in ForTextbooks(ps, TextbookIds(LecturerTextbooks(textbooks, lecturerId)))
                        <==> p in ps && OwnedBy(textbooks, lecturerId, p.textbookId)
  {
    forall p ensures p in ForTextbooks(ps, TextbookIds(LecturerTextbooks(textbooks, lecturerId)))
                     <==> p in ps && OwnedBy(textbooks, lecturerId, p.textbookId) {
      OwnedIds(textbooks, lecturerId, p.textbookId);
    }
  }

  /** What `getPurchaseStats` reports. */
  datatype Stats = Stats(totalPurchases: nat, totalRevenue: int, recentPurchases: nat, averageAmount: real)

  /** The records a caller's statistics cover: every record for an
      administrator, those of the lecturer's own textbooks for a lecturer. */
  function StatsScope(caller: Principal, textbooks: seq<Catalog.Textbook>, ps: seq<Purchase>): (r: seq<Purchase>)
    ensures |r| <= |ps|
    ensures caller.role != Lecturer ==> r == ps
    ensures caller.role == Lecturer ==> r == ForTextbooks(ps, TextbookIds(LecturerTextbooks(textbooks, caller.id)))
    ensures caller.role == Lecturer ==> forall p :: p in r <==> p in ps && OwnedBy(textbooks, caller.id, p.textbookId)
  {
    OwnedScope(textbooks, ps, caller.id);
    if caller.role == Lecturer then ForTextbooks(ps, TextbookIds(LecturerTextbooks(textbooks, caller.id)))
    else ps
  }

  /** `totalRevenue / totalPurchases`, or 0 for no purchase. */
  function Average(total: int, count: nat): (a: real)
    ensures count == 0 ==> a == 0.0
    ensures count > 0 ==> a * count as real == total as real
  {
    if count > 0 then total as real / count as real else 0.0
  }

  /** `getPurchaseStats`: staff only; counts, revenue and the records
      created at or after `cutoff` (six months before the request). */
  function GetPurchaseStats(caller: Principal, textbooks: seq<Catalog.Textbook>, ps: seq<Purchase>, cutoff: int)
    : (r: Result<Stats, ApiError>)
    ensures r.Ok? <==> IsStaff(caller)
    ensures r.Err? ==> r.error == Forbidden(NotAuthorizedStats)
    ensures r.Ok? && caller.role == Admin ==> r.value.totalPurchases == |ps| && r.value.totalRevenue == Revenue(ps)
    ensures r.Ok? && caller.role == Lecturer ==>
              r.value.totalPurchases == |StatsScope(caller, textbooks, ps)|
              && forall p :: p in StatsScope(caller, textbooks, ps) <==> p in ps && OwnedBy(textbooks, caller.id, p.textbookId)
    ensures r.Ok? ==> r.value.totalPurchases == |StatsScope(caller, textbooks, ps)|
    ensures r.Ok? ==> r.value.totalRevenue == Revenue(StatsScope(caller, textbooks, ps))
    ensures r.Ok? ==> r.value.recentPurchases
                      == |Filter(StatsScope(caller, textbooks, ps), (p: Purchase) => p.createdAt >= cutoff)|
    ensures r.Ok? ==> r.value.recentPurchases <= r.value.totalPurchases
    ensures r.Ok? ==> r.value.averageAmount == Average(r.value.totalRevenue, r.value.totalPurchases)
  {
    if !IsStaff(caller) then Err(Forbidden(NotAuthorizedStats))
    else
      var scope := StatsScope(caller, textbooks, ps);
      var recent := Filter(scope, (p: Purchase) => p.createdAt >= cutoff);
      var total := Revenue(scope);
      OwnedScope(textbooks, ps, caller.id);
      Ok(Stats(|scope|, total, |recent|, Average(total, |scope|)))
  }

  /** What `getPurchasesByLecturer` reports; `textbooksCount` is absent and
      `message` present when the lecturer has no textbook. */
  datatype LecturerSales = LecturerSales(count: nat, totalRevenue: int, textbooksCount: Option<nat>,
                                         message: Option<string>, data: seq<PurchaseDetail>)

  /** Whether `caller` may read the sales of `lecturerId`: an administrator,
      or that lecturer. */
  predicate MaySeeLecturerSales(caller: Principal, lecturerId: string) {
    caller.role == Admin || (caller.role == Lecturer && caller.id == lecturerId)
  }

  /** `getPurchasesByLecturer`: the records of the lecturer's textbooks,
      each with its textbook, their count and their sum. */
  function GetPurchasesByLecturer(caller: Principal, textbooks: seq<Catalog.Textbook>, ps: seq<Purchase>,
                                  lecturerId: string): (r: Result<LecturerSales, ApiError>)
    ensures r.Ok? <==> MaySeeLecturerSales(caller, lecturerId)
    ensures r.Err? ==> r.error == Forbidden(NotAuthorizedLecturer)
    ensures r.Ok? && |LecturerTextbooks(textbooks, lecturerId)| == 0 ==>
              r.value == LecturerSales(0, 0, None, Some(NoTextbooksNote), [])
    ensures r.Ok? && |LecturerTextbooks(textbooks, lecturerId)| > 0 ==>
              && r.value.textbooksCount == Some(|LecturerTextbooks(textbooks, lecturerId)|)
              && r.value.count == |r.value.data|
              && Details(r.value.data) == ForTextbooks(ps, TextbookIds(LecturerTextbooks(textbooks, lecturerId)))
              && r.value.totalRevenue == Revenue(Details(r.value.data))
              && (forall p :: p in Details(r.value.data) <==> p in ps && OwnedBy(textbooks, lecturerId, p.textbookId))
              && forall i :: 0 <= i < |r.value.data| ==>
                   && r.value.data[i].textbook.Some?
                   && r.value.data[i].textbook.value in textbooks
                   && r.value.data[i].textbook.value.id == r.value.data[i].purchase.textbookId
                   && r.value.data[i].textbook.value.lecturerId == lecturerId
  {
    if !MaySeeLecturerSales(caller, lecturerId) then Err(Forbidden(NotAuthorizedLecturer))
    else
      var mine := LecturerTextbooks(textbooks, lecturerId);
      if |mine| == 0 then Ok(LecturerSales(0, 0, None, Some(NoTextbooksNote), []))
      else
        var sold := ForTextbooks(ps, TextbookIds(mine));
        var data := WithTextbooks(mine, sold);
        OwnedScope(textbooks, ps, lecturerId);
        Ok(LecturerSales(|sold|, Revenue(sold), Some(|mine|), None, data))
  }

  /** Each record paired with the first textbook of `mine` it is for. */
  function WithTextbooks(mine: seq<Catalog.Textbook>, sold: seq<Purchase>): (d: seq<PurchaseDetail>)
    requires forall p :: p in sold ==> p.textbookId in TextbookIds(mine)
    ensures Details(d) == sold
    ensures forall i :: 0 <= i < |d| ==> && d[i].textbook.Some? && d[i].textbook.value in mine
                                         && d[i].textbook.value.id == d[i].purchase.textbookId
  {
    var d := Map(sold, (p: Purchase) => PurchaseDetail(p, FindTextbook(mine, p.textbookId)));
    assert forall i :: 0 <= i < |sold| ==> FindTextbook(mine, sold[i].textbookId).Some? by {
      forall i | 0 <= i < |sold| ensures FindTextbook(mine, sold[i].textbookId).Some? {
        assert sold[i] in sold;
        assert sold[i].textbookId in TextbookIds(mine);
        var t :| t in mine && t.id == sold[i].textbookId;
      }
    }
    assert Details(d) == sold;
    d
  }

  /** The purchase records of a detail list. */
  function Details(d: seq<PurchaseDetail>): (r: seq<Purchase>)
    ensures |r| == |d|
    ensures forall i :: 0 <= i < |d| ==> r[i] == d[i].purchase
  {
    Map(d, (x: PurchaseDetail) => x.purchase)
  }

  /** A lecturer's own statistics count and sum the same records as the
      lecturer's sales route, including when the lecturer has no textbook. */
  lemma LecturerStatsMatchSales(caller: Principal, textbooks: seq<Catalog.Textbook>, ps: seq<Purchase>, cutoff: int)
    requires caller.role == Lecturer
    ensures GetPurchaseStats(caller, textbooks, ps, cutoff).Ok? && GetPurchasesByLecturer(caller, textbooks, ps, caller.id).Ok?
    ensures GetPurchaseStats(caller, textbooks, ps, cutoff).value.totalPurchases
         == GetPurchasesByLecturer(caller, textbooks, ps, caller.id).value.count
    ensures GetPurchaseStats(caller, textbooks, ps, cutoff).value.totalRevenue
         == GetPurchasesByLecturer(caller, textbooks, ps, caller.id).value.totalRevenue
  {
    var mine := LecturerTextbooks(textbooks, caller.id);
    if |mine| == 0 {
      assert TextbookIds(mine) == [];
      FilterNothing(ps, (p: Purchase) => p.textbookId in TextbookIds(mine));
    }
  }

  /** The revenue of a set of textbooks is the sum of their revenues, when
      no textbook is counted twice. */
  lemma {:induction false} RevenueOverTextbooks(ps: seq<Purchase>, ids: seq<string>)
    requires Distinct(ids)
    ensures Revenue(ForTextbooks(ps, ids)) == SumOf(ids, (id: string) => TextbookRevenue(ps, id))
  {
    if ids == [] {
      FilterNothing(ps, (p: Purchase) => p.textbookId in ids);
    } else {
      var x, rest := ids[0], ids[1..];
      assert forall j :: 0 <= j < |rest| ==> rest[j] == ids[j + 1];
      assert Distinct(rest);
      SumFilterDisjoint(ps, (p: Purchase) => p.amount,
                        (p: Purchase) => p.textbookId == x,
                        (p: Purchase) => p.textbookId in rest,
                        (p: Purchase) => p.textbookId in ids);
      RevenueOverTextbooks(ps, rest);
    }
  }

  /** The lecturer's total revenue is the sum of the revenues the textbook
      route reports for each of the lecturer's textbooks. */
  lemma LecturerRevenueIsSumOfTextbookRevenues(caller: Principal, textbooks: seq<Catalog.Textbook>,
                                               ps: seq<Purchase>, lecturerId: string)
    requires Catalog.UniqueIds(textbooks)
    requires GetPurchasesByLecturer(caller, textbooks, ps, lecturerId).Ok?
    ensures var ids := TextbookIds(LecturerTextbooks(textbooks, lecturerId));
      GetPurchasesByLecturer(caller, textbooks, ps, lecturerId).value.totalRevenue
        == SumOf(ids, (id: string) => TextbookRevenue(ps, id))
  {
    var mine := LecturerTextbooks(textbooks, lecturerId);
    Catalog.FilterKeepsUniqueIds(textbooks, (t: Catalog.Textbook) => t.lecturerId == lecturerId);
    var ids := TextbookIds(mine);
    assert Distinct(ids) by {
      forall i, j | 0 <= i < j < |ids| ensures ids[i] != ids[j] {
        assert ids[i] == mine[i].id && ids[j] == mine[j].id;
      }
    }
    RevenueOverTextbooks(ps, ids);
    if |mine| == 0 {
      assert ids == [];
    }
  }

  // ---------------------------------------------------------------------
  // The ledger
  // ---------------------------------------------------------------------

  class Ledger {
    /** The `Purchase` collection, in insertion order. */
    var purchases: seq<Purchase>

    /** Ids are unique, and sequential requests never record a pair twice. */
    ghost predicate Valid()
      reads this
    {
      UniqueIds(purchases) && NoDuplicatePairs(purchases)
    }

    constructor ()
      ensures Valid() && purchases == []
    {
      purchases := [];
    }

    /** `createPurchase`: the guards, then one new record for the caller.
        The database assigns `newId`, distinct from every stored id. */
    method CreatePurchase(caller: Principal, body: PurchaseBody, textbooks: seq<Catalog.Textbook>,
                          newId: string, now: int) returns (r: Result<Purchase, ApiError>)
      requires Valid()
      requires forall i :: 0 <= i < |purchases| ==> purchases[i].id != newId
      modifies this
      ensures Valid()
      ensures CheckCreatePurchase(caller, body, textbooks, old(purchases)).Err? ==>
                r == Err(CheckCreatePurchase(caller, body, textbooks, old(purchases)).error)
                && purchases == old(purchases)
      ensures CheckCreatePurchase(caller, body, textbooks, old(purchases)).Ok? ==>
                && r == Ok(Purchase(newId, body.textbookId.value, caller.id, body.amount.value, now))
                && purchases == old(purchases) + [r.value]
    {
      var checked := CheckCreatePurchase(caller, body, textbooks, purchases);
      if checked.Err? {
        return Err(checked.error);
      }
      var p := Purchase(newId, body.textbookId.value, caller.id, body.amount.value, now);
      AcceptedKeepsPairsUnique(purchases, p);
      purchases := purchases + [p];
      r := Ok(p);
    }
  }
}
