/** The collaboration service: the links between a tutor and its learners. */
module CollaborationService {
  import opened Common
  import opened Tables
  import opened Entities
  import opened Store
  import opened Sorting

  /** ICollaboration: the ids may be null; the status is ignored on insert. */
  datatype CollaborationInput = CollaborationInput(learnerId: Option<Id>, tutorId: Option<Id>, status: CollaborationStatus)

  /** The learner fields getCollaborationByTutorId selects. */
  datatype LearnerSummary = LearnerSummary(id: Id, name: string, email: string, lastName: string, status: UserStatus)

  /** One entry of getAllCollaborations (CollaborationDto), with the stored
      creation time in place of its formatted text. */
  datatype CollaborationView = CollaborationView(
    id: Id,
    learnerId: Id,
    tutorId: Id,
    status: CollaborationStatus,
    createdAt: nat,
    learnerName: string,
    learnerLastName: string,
    learnerEmail: string,
    tutorEmail: string,
    tutorName: string,
    tutorLastName: string)

  /** The guard of addNewCollaboration: two different, non-null ids. */
  predicate Inserts(c: CollaborationInput)
  {
    c.learnerId != c.tutorId && c.learnerId.Some? && c.tutorId.Some?
  }

  /** No user collaborates with itself. */
  ghost predicate NoSelfCollaboration(t: Table<Collaboration>)
  {
    forall row :: row in t ==> row.val.learnerId != row.val.tutorId
  }

  /** The foreign keys of the collaboration table: both users exist. */
  ghost predicate CollaboratorsExist(users: Table<User>, t: Table<Collaboration>)
  {
    forall row :: row in t ==> row.val.learnerId in Ids(users) && row.val.tutorId in Ids(users)
  }

  /** addNewCollaboration: inserts an ACTIVE collaboration when the guard
      holds and both users exist; a missing user fails the insert. */
  method AddNewCollaboration(db: Database, c: CollaborationInput, now: nat) returns (r: Outcome)
    requires db.Valid()
    modifies db`collaborations, db`nextId
    ensures db.Valid()
    ensures !Inserts(c) ==> r == Done && db.collaborations == old(db.collaborations) && db.nextId == old(db.nextId)
    ensures Inserts(c) && !(c.learnerId.value in Ids(db.users) && c.tutorId.value in Ids(db.users)) ==>
      && r == Failed(Failure("Unable to add new collaboration"))
      && db.collaborations == old(db.collaborations) && db.nextId == old(db.nextId)
    ensures Inserts(c) && c.learnerId.value in Ids(db.users) && c.tutorId.value in Ids(db.users) ==>
      && r == Done
      && db.collaborations == old(db.collaborations) +
           [Row(old(db.nextId), Collaboration(c.learnerId.value, c.tutorId.value, CollaborationStatus.ACTIVE, now))]
      && db.nextId == old(db.nextId) + 1
  {
    if !Inserts(c) {
      return Done;
    }
    if !(c.learnerId.value in Ids(db.users) && c.tutorId.value in Ids(db.users)) {
      // the insert fails on the foreign key and the error is replaced
      return Failed(Failure("Unable to add new collaboration"));
    }
    var id := db.InsertCollaboration(Collaboration(c.learnerId.value, c.tutorId.value, CollaborationStatus.ACTIVE, now));
    r := Done;
  }

  /** A collaboration addNewCollaboration stores never links a user to
      itself and only links existing users, so both properties of the table
      survive the insert. */
  lemma InsertKeepsInvariants(users: Table<User>, t: Table<Collaboration>, c: CollaborationInput, id: Id, now: nat)
    requires Inserts(c) && c.learnerId.value in Ids(users) && c.tutorId.value in Ids(users)
    requires NoSelfCollaboration(t) && CollaboratorsExist(users, t)
    ensures var row := Row(id, Collaboration(c.learnerId.value, c.tutorId.value, CollaborationStatus.ACTIVE, now));
      NoSelfCollaboration(t + [row]) && CollaboratorsExist(users, t + [row])
  {
    var row := Row(id, Collaboration(c.learnerId.value, c.tutorId.value, CollaborationStatus.ACTIVE, now));
    assert forall r :: r in t + [row] <==> r in t || r == row;
  }

  /** findCollaboration: the first collaboration between exactly these two users. */
  function FindCollaboration(t: Table<Collaboration>, learnerId: Id, tutorId: Id): (r: Option<Row<Collaboration>>)
    ensures r.Some? ==> r.value in t && r.value.val.learnerId == learnerId && r.value.val.tutorId == tutorId
    ensures r.None? <==> forall row :: row in t ==> !(row.val.learnerId == learnerId && row.val.tutorId == tutorId)
  {
    FindWhere(t, (c: Collaboration) => c.learnerId == learnerId && c.tutorId == tutorId)
  }

  function Summary(id: Id, u: User): LearnerSummary
  {
    LearnerSummary(id, u.name, u.email, u.lastName, u.status)
  }

  /** getCollaborationByTutorId: the learner of every collaboration of the
      tutor, in table order, whatever the collaboration's status. */
  function GetCollaborationByTutorId(users: Table<User>, t: Table<Collaboration>, tutorId: Id): (r: seq<LearnerSummary>)
    requires CollaboratorsExist(users, t)
    ensures |r| <= |t|
    ensures forall row :: row in t && row.val.tutorId == tutorId ==>
      Summary(row.val.learnerId, Find(users, row.val.learnerId).value) in r
    ensures forall s :: s in r ==>
      (exists row :: row in t && row.val.tutorId == tutorId && row.val.learnerId == s.id)
      && Find(users, s.id) == Some(User(s.name, s.lastName, s.email, Find(users, s.id).value.password,
           Find(users, s.id).value.companyName, Find(users, s.id).value.roleId, s.status))
  {
    if |t| == 0 then []
    else
      assert forall row :: row in t <==> row == t[0] || row in t[1..];
      var head := if t[0].val.tutorId == tutorId then [Summary(t[0].val.learnerId, Find(users, t[0].val.learnerId).value)] else [];
      head + GetCollaborationByTutorId(users, t[1..], tutorId)
  }

  /** The collaborations, most recent first. */
  function Newest(t: Table<Collaboration>): (r: Table<Collaboration>)
    ensures forall i, j :: 0 <= i < j < |r| ==> r[i].val.createdAt >= r[j].val.createdAt
    ensures multiset(r) == multiset(t)
  {
    var key := (row: Row<Collaboration>) => 0 - row.val.createdAt as int;
    var r := SortBy(t, key);
    assert forall i, j :: 0 <= i < j < |r| ==> key(r[i]) <= key(r[j]);
    r
  }

  function ViewOf(users: Table<User>, row: Row<Collaboration>): (v: CollaborationView)
    requires row.val.learnerId in Ids(users) && row.val.tutorId in Ids(users)
  {
    var learner := Find(users, row.val.learnerId).value;
    var tutor := Find(users, row.val.tutorId).value;
    CollaborationView(row.id, row.val.learnerId, row.val.tutorId, row.val.status, row.val.createdAt,
      learner.name, learner.lastName, learner.email, tutor.email, tutor.name, tutor.lastName)
  }

  lemma NewestMembers(t: Table<Collaboration>)
    ensures forall row :: row in Newest(t) <==> row in t
  {
    forall row ensures row in Newest(t) <==> row in t {
      assert row in Newest(t) <==> row in multiset(Newest(t));
      assert row in t <==> row in multiset(t);
    }
  }

  function Views(users: Table<User>, s: Table<Collaboration>): (r: seq<CollaborationView>)
    requires CollaboratorsExist(users, s)
    ensures |r| == |s|
    ensures forall i :: 0 <= i < |s| ==> r[i] == ViewOf(users, s[i])
  {
    seq(|s|, i requires 0 <= i < |s| => ViewOf(users, s[i]))
  }

  /** getAllCollaborations: every collaboration once, newest first, with the
      names and emails of both users. */
  function GetAllCollaborations(users: Table<User>, t: Table<Collaboration>): (r: seq<CollaborationView>)
    requires CollaboratorsExist(users, t)
    ensures |r| == |t|
    ensures forall i, j :: 0 <= i < j < |r| ==> r[i].createdAt >= r[j].createdAt
    ensures forall row :: row in t ==> ViewOf(users, row) in r
    ensures forall v :: v in r ==> exists row :: row in t && v == ViewOf(users, row)
  {
    var s := Newest(t);
    NewestMembers(t);
    ViewsMembers(users, t, s);
    Views(users, s)
  }

  /** The views of a reordering of a table are the views of its rows. */
  lemma ViewsMembers(users: Table<User>, t: Table<Collaboration>, s: Table<Collaboration>)
    requires forall row :: row in s <==> row in t
    requires CollaboratorsExist(users, t) && CollaboratorsExist(users, s)
    ensures forall row :: row in t ==> ViewOf(users, row) in Views(users, s)
    ensures forall v :: v in Views(users, s) ==> exists row :: row in t && v == ViewOf(users, row)
  {
    var r := Views(users, s);
    forall row | row in t ensures ViewOf(users, row) in r {
      var i :| 0 <= i < |s| && s[i] == row;
      assert r[i] == ViewOf(users, row);
    }
    forall v | v in r ensures exists row :: row in t && v == ViewOf(users, row) {
      var i :| 0 <= i < |r| && r[i] == v;
      assert s[i] in s;
    }
  }

  /** Only an admin or the collaboration's own tutor may change it. */
  predicate MayManage(user: Caller, c: Collaboration)
  {
    user.role == "ADMIN" || user.id == c.tutorId
  }

  function CollaborationNotFound(id: Id): Error
  {
    NotFound("Collaboration with ID " + NatToString(id) + " not found")
  }

  /** deleteCollaboration: removes exactly that row when the caller may
      manage it; the refusal reaches the caller as a plain Error. */
  method DeleteCollaboration(db: Database, collaborationId: Id, user: Caller) returns (r: Result<string>)
    requires db.Valid()
    modifies db`collaborations
    ensures db.Valid()
    ensures Find(old(db.collaborations), collaborationId).None? ==>
      r == Err(CollaborationNotFound(collaborationId)) && db.collaborations == old(db.collaborations)
    ensures Find(old(db.collaborations), collaborationId).Some? && !MayManage(user, Find(old(db.collaborations), collaborationId).value) ==>
      r == Err(Failure("Unable to delete collaboration")) && db.collaborations == old(db.collaborations)
    ensures Find(old(db.collaborations), collaborationId).Some? && MayManage(user, Find(old(db.collaborations), collaborationId).value) ==>
      r == Ok("Collaboration deleted successfully") && db.collaborations == Delete(old(db.collaborations), collaborationId)
  {
    var found := Find(db.collaborations, collaborationId);
    if found.None? {
      return Err(CollaborationNotFound(collaborationId));
    }
    if !MayManage(user, found.value) {
      // the UnauthorizedException is caught and replaced
      return Err(Failure("Unable to delete collaboration"));
    }
    DeleteWellKeyed(db.collaborations, collaborationId, db.nextId);
    db.collaborations := Delete(db.collaborations, collaborationId);
    r := Ok("Collaboration deleted successfully");
  }

  /** The status flip: ACTIVE becomes INACTIVE and anything else ACTIVE. */
  function Toggled(s: CollaborationStatus): (r: CollaborationStatus)
    ensures r != s
    ensures s == CollaborationStatus.ACTIVE <==> r == CollaborationStatus.INACTIVE
  {
    if s == CollaborationStatus.ACTIVE then CollaborationStatus.INACTIVE else CollaborationStatus.ACTIVE
  }

  /** Flipping twice restores the status. */
  lemma ToggledTwice(s: CollaborationStatus)
    ensures Toggled(Toggled(s)) == s
  {
  }

  /** updateCollaborationStatus: flips the status of a collaboration the
      caller may manage and returns the new status. */
  method UpdateCollaborationStatus(db: Database, collaborationId: Id, user: Caller) returns (r: Result<CollaborationStatus>)
    requires db.Valid()
    modifies db`collaborations
    ensures db.Valid()
    ensures Find(old(db.collaborations), collaborationId).None? ==>
      r == Err(CollaborationNotFound(collaborationId)) && db.collaborations == old(db.collaborations)
    ensures Find(old(db.collaborations), collaborationId).Some? && !MayManage(user, Find(old(db.collaborations), collaborationId).value) ==>
      r == Err(Failure("Unable to update collaboration status")) && db.collaborations == old(db.collaborations)
    ensures Find(old(db.collaborations), collaborationId).Some? && MayManage(user, Find(old(db.collaborations), collaborationId).value) ==>
      var c := Find(old(db.collaborations), collaborationId).value;
      && r == Ok(Toggled(c.status))
      && db.collaborations == Replace(old(db.collaborations), collaborationId, c.(status := Toggled(c.status)))
  {
    var found := Find(db.collaborations, collaborationId);
    if found.None? {
      return Err(CollaborationNotFound(collaborationId));
    }
    var c := found.value;
    if !MayManage(user, c) {
      return Err(Failure("Unable to update collaboration status"));
    }
    var newStatus := Toggled(c.status);
    ReplaceWellKeyed(db.collaborations, collaborationId, c.(status := newStatus), db.nextId);
    db.collaborations := Replace(db.collaborations, collaborationId, c.(status := newStatus));
    r := Ok(newStatus);
  }

  /** Two status updates of the same collaboration leave the table as it was. */
  lemma UpdateStatusTwiceRestores(t: Table<Collaboration>, id: Id)
    requires Keyed(t) && Find(t, id).Some?
    ensures var c := Find(t, id).value;
      var once := Replace(t, id, c.(status := Toggled(c.status)));
      Find(once, id) == Some(c.(status := Toggled(c.status))) &&
      Replace(once, id, c.(status := Toggled(Toggled(c.status)))) == t
  {
    var c := Find(t, id).value;
    FindAfterReplace(t, id, c.(status := Toggled(c.status)), id);
    ReplaceRestores(t, id, c.(status := Toggled(c.status)));
  }
}
