/**
 * Signing a user up to a scheduled activity: the ordered chain of checks
 * that EighthScheduledActivity.add_user runs unless forced, and the step that
 * then repoints the user's existing signup in the block or creates one.
 *
 * The tables are in-memory maps keyed by id; the signup table is the state
 * that add_user changes, held by the SignupStore class.
 */
module Signups {
  import opened Wrappers
  import Blocks
  import opened Activities

  type UserId = int
  type SaId = int
  type SignupId = nat

  /** EighthSignup. */
  datatype Signup = Signup(user: UserId, scheduledActivity: SaId, afterDeadline: bool)

  /** The tables add_user reads and does not change. */
  datatype Schedule = Schedule(
    blocks: map<Blocks.BlockId, Blocks.Block>,
    activities: map<ActivityId, Activity>,
    scheduled: map<SaId, ScheduledActivity>)

  /** The signup table and the id the next created signup receives. */
  datatype Store = Store(signups: map<SignupId, Signup>, nextId: SignupId)

  /** What add_user reads from the HTTP request. */
  datatype Request = Request(user: UserId, isEighthAdmin: bool, forceParam: bool)

  /** The exceptions add_user raises. */
  datatype SignupError =
    | SignupForbidden
    | BlockLocked
    | ScheduledActivityCancelled
    | ActivityDeleted
    | ActivityFull
    | Presign
    | Sticky
    | OneADay
    | MultipleObjectsReturned

  /**
   * Foreign keys resolve, each block is stored under its own id, and a
   * scheduled activity is unique per (block, activity).
   */
  predicate ScheduleValid(s: Schedule) {
    && (forall id :: id in s.blocks ==> s.blocks[id].id == id)
    && (forall id :: id in s.scheduled ==>
          s.scheduled[id].block in s.blocks && s.scheduled[id].activity in s.activities)
    && (forall i, j :: i in s.scheduled && j in s.scheduled && i != j ==>
          s.scheduled[i].block != s.scheduled[j].block || s.scheduled[i].activity != s.scheduled[j].activity)
  }

  /** Every signup points at a scheduled activity, and ids are allocated upwards. */
  predicate StoreWellFormed(s: Schedule, st: Store) {
    forall id :: id in st.signups ==> st.signups[id].scheduledActivity in s.scheduled && id < st.nextId
  }

  /** The invariant validate_unique checks: one signup per (user, block). */
  predicate OnePerBlock(s: Schedule, signups: map<SignupId, Signup>)
    requires forall id :: id in signups ==> signups[id].scheduledActivity in s.scheduled
  {
    forall i, j :: i in signups && j in signups && i != j && signups[i].user == signups[j].user ==>
      s.scheduled[signups[i].scheduledActivity].block != s.scheduled[signups[j].scheduledActivity].block
  }

  /** unique_together = ("user", "scheduled_activity") */
  predicate OnePerScheduledActivity(signups: map<SignupId, Signup>) {
    forall i, j :: i in signups && j in signups && i != j ==>
      signups[i].user != signups[j].user || signups[i].scheduledActivity != signups[j].scheduledActivity
  }

  // ---------------------------------------------------------------------
  // The queries add_user runs.

  /** self.eighthsignup_set */
  function SignupsFor(signups: map<SignupId, Signup>, saId: SaId): set<SignupId> {
    set id | id in signups && signups[id].scheduledActivity == saId
  }

  /** EighthSignup.objects.filter(user=user, scheduled_activity__block=block) */
  function InBlock(s: Schedule, signups: map<SignupId, Signup>, user: UserId, block: Blocks.BlockId): set<SignupId>
    requires forall id :: id in signups ==> signups[id].scheduledActivity in s.scheduled
  {
    set id | id in signups && signups[id].user == user && s.scheduled[signups[id].scheduledActivity].block == block
  }

  function ActivityOf(s: Schedule, saId: SaId): Activity
    requires ScheduleValid(s) && saId in s.scheduled
  {
    s.activities[s.scheduled[saId].activity]
  }

  function BlockOf(s: Schedule, saId: SaId): Blocks.Block
    requires ScheduleValid(s) && saId in s.scheduled
  {
    s.blocks[s.scheduled[saId].block]
  }

  function TrueCapacityOf(s: Schedule, saId: SaId): int
    requires ScheduleValid(s) && saId in s.scheduled
  {
    TrueCapacity(s.scheduled[saId], ActivityOf(s, saId))
  }

  /** is_full: limited, and at least as many signups as the capacity. */
  predicate IsFull(s: Schedule, signups: map<SignupId, Signup>, saId: SaId)
    requires ScheduleValid(s) && saId in s.scheduled
  {
    TrueCapacityOf(s, saId) != Unlimited && |SignupsFor(signups, saId)| >= TrueCapacityOf(s, saId)
  }

  /**
   * The Sticky query: signups of this scheduled activity, of this user, whose
   * activity is sticky.
   */
  predicate InASticky(s: Schedule, signups: map<SignupId, Signup>, saId: SaId, user: UserId)
    requires ScheduleValid(s) && saId in s.scheduled
  {
    exists id :: id in signups && signups[id].scheduledActivity == saId && signups[id].user == user
      && ActivityOf(s, signups[id].scheduledActivity).sticky
  }

  /**
   * The OneADay query: signups of this scheduled activity, of this user, on
   * this block's date, for this activity, excluding those in this block.
   */
  predicate InActSameDay(s: Schedule, signups: map<SignupId, Signup>, saId: SaId, user: UserId)
    requires ScheduleValid(s) && saId in s.scheduled
  {
    exists id :: id in signups && signups[id].scheduledActivity == saId
      && signups[id].user == user
      && BlockOf(s, signups[id].scheduledActivity).date == BlockOf(s, saId).date
      && s.scheduled[signups[id].scheduledActivity].activity == s.scheduled[saId].activity
      && s.scheduled[signups[id].scheduledActivity].block != s.scheduled[saId].block
  }

  /** force, or'd with "the request asks to force and comes from an eighth admin". */
  predicate EffectiveForce(request: Option<Request>, force: bool) {
    if request.Some? then force || (request.value.forceParam && request.value.isEighthAdmin) else force
  }

  // ---------------------------------------------------------------------
  // The check chain.

  /** The error add_user raises when not forced, or None when every check passes. */
  function FirstFailure(s: Schedule, signups: map<SignupId, Signup>, saId: SaId, user: UserId,
                        request: Option<Request>, now: int): Option<SignupError>
    requires ScheduleValid(s) && saId in s.scheduled
  {
    var act := ActivityOf(s, saId);
    if request.Some? && user != request.value.user && !request.value.isEighthAdmin then Some(SignupForbidden)
    else if BlockOf(s, saId).locked then Some(BlockLocked)
    else if s.scheduled[saId].cancelled then Some(ScheduledActivityCancelled)
    else if act.deleted then Some(ActivityDeleted)
    else if IsFull(s, signups, saId) then Some(ActivityFull)
    else if act.presign && IsTooEarlyToSignup(BlockOf(s, saId).date, now) then Some(Presign)
    else if InASticky(s, signups, saId, user) then Some(Sticky)
    else if act.oneADay && InActSameDay(s, signups, saId, user) then Some(OneADay)
    else None
  }

  /** The position of each check in the chain; the lookup of the existing signup comes last. */
  function Rank(e: SignupError): nat {
    match e
    case SignupForbidden => 0
    case BlockLocked => 1
    case ScheduledActivityCancelled => 2
    case ActivityDeleted => 3
    case ActivityFull => 4
    case Presign => 5
    case Sticky => 6
    case OneADay => 7
    case MultipleObjectsReturned => 8
  }

  /** The condition under which each check of the chain fails on its own. */
  predicate Violated(e: SignupError, s: Schedule, signups: map<SignupId, Signup>, saId: SaId, user: UserId,
                     request: Option<Request>, now: int)
    requires ScheduleValid(s) && saId in s.scheduled
  {
    match e
    case SignupForbidden => request.Some? && user != request.value.user && !request.value.isEighthAdmin
    case BlockLocked => BlockOf(s, saId).locked
    case ScheduledActivityCancelled => s.scheduled[saId].cancelled
    case ActivityDeleted => ActivityOf(s, saId).deleted
    case ActivityFull => IsFull(s, signups, saId)
    case Presign => ActivityOf(s, saId).presign && IsTooEarlyToSignup(BlockOf(s, saId).date, now)
    case Sticky => InASticky(s, signups, saId, user)
    case OneADay => ActivityOf(s, saId).oneADay && InActSameDay(s, signups, saId, user)
    case MultipleObjectsReturned => false
  }

  /**
   * The chain raises the violated check of lowest rank, and passes exactly
   * when no check is violated.
   */
  lemma FirstFailureIsEarliestViolation(s: Schedule, signups: map<SignupId, Signup>, saId: SaId,
                                        user: UserId, request: Option<Request>, now: int)
    requires ScheduleValid(s) && saId in s.scheduled
    ensures var r := FirstFailure(s, signups, saId, user, request, now);
      && (r.None? <==> forall e :: !Violated(e, s, signups, saId, user, request, now))
      && (r.Some? ==> Violated(r.value, s, signups, saId, user, request, now)
                      && forall e :: Rank(e) < Rank(r.value) ==> !Violated(e, s, signups, saId, user, request, now))
  {
    var r := FirstFailure(s, signups, saId, user, request, now);
    if r.Some? {
      assert Violated(r.value, s, signups, saId, user, request, now);
    }
    forall e | Rank(e) < (if r.Some? then Rank(r.value) else 9)
      ensures !Violated(e, s, signups, saId, user, request, now)
    {
    }
  }

  /**
   * As written, the Sticky query starts from this scheduled activity's own
   * signups: it fires exactly when the activity is sticky and the user is
   * already signed up for this very scheduled activity.
   */
  lemma StickyOnlySeesThisScheduledActivity(s: Schedule, signups: map<SignupId, Signup>, saId: SaId, user: UserId)
    requires ScheduleValid(s) && saId in s.scheduled
    ensures InASticky(s, signups, saId, user) <==>
      ActivityOf(s, saId).sticky && exists id :: id in signups && signups[id].user == user && signups[id].scheduledActivity == saId
  {
  }

  /**
   * As written, the OneADay query keeps only signups of this scheduled
   * activity and then drops those in this block, which is all of them: the
   * check never fires.
   */
  lemma OneADayNeverRaised(s: Schedule, signups: map<SignupId, Signup>, saId: SaId, user: UserId,
                           request: Option<Request>, now: int)
    requires ScheduleValid(s) && saId in s.scheduled
    ensures !InActSameDay(s, signups, saId, user)
    ensures FirstFailure(s, signups, saId, user, request, now) != Some(OneADay)
  {
  }

  // ---------------------------------------------------------------------
  // add_user as a function of the store.

  lemma SingletonChoice(ids: set<SignupId>)
    requires |ids| == 1
    ensures exists id :: ids == {id}
  {
    var id :| id in ids;
    assert |ids - {id}| == 0;
    assert ids == {id};
  }

  /** The element of a one-element set. */
  function OnlyElement(ids: set<SignupId>): (id: SignupId)
    requires |ids| == 1
    ensures ids == {id}
  {
    SingletonChoice(ids);
    var id :| id in ids;
    id
  }

  /**
   * The store after add_user, or the error it raises. A forced call skips
   * the check chain; the user's signup in the block is then repointed, or a
   * new one is created with the next id.
   */
  function Admit(s: Schedule, st: Store, saId: SaId, user: UserId, request: Option<Request>,
                 force: bool, now: int): (r: Result<Store, SignupError>)
    requires ScheduleValid(s) && saId in s.scheduled && StoreWellFormed(s, st)
    ensures r.Success? ==> StoreWellFormed(s, r.value)
  {
    var failure := FirstFailure(s, st.signups, saId, user, request, now);
    if !EffectiveForce(request, force) && failure.Some? then Failure(failure.value)
    else
      var existing := InBlock(s, st.signups, user, s.scheduled[saId].block);
      if |existing| > 1 then Failure(MultipleObjectsReturned)
      else if |existing| == 1 then
        var id := OnlyElement(existing);
        Success(Store(st.signups[id := st.signups[id].(scheduledActivity := saId)], st.nextId))
      else
        Success(Store(st.signups[st.nextId := Signup(user, saId, false)], st.nextId + 1))
  }

  // ---------------------------------------------------------------------
  // What add_user guarantees.

  /**
   * A forced call raises nothing but the lookup's MultipleObjectsReturned;
   * an unforced call raises the first failed check before touching the store.
   */
  lemma AdmitErrors(s: Schedule, st: Store, saId: SaId, user: UserId, request: Option<Request>,
                    force: bool, now: int)
    requires ScheduleValid(s) && saId in s.scheduled && StoreWellFormed(s, st)
    ensures var r := Admit(s, st, saId, user, request, force, now);
      var f := FirstFailure(s, st.signups, saId, user, request, now);
      && (EffectiveForce(request, force) ==> r.Success? || r.error == MultipleObjectsReturned)
      && (!EffectiveForce(request, force) && f.Some? ==> r == Failure(f.value))
      && (r.Failure? && r.error != MultipleObjectsReturned ==> !EffectiveForce(request, force) && f == Some(r.error))
  {
  }

  /** The signup add_user repoints, or the id of the one it creates. */
  function Target(s: Schedule, st: Store, saId: SaId, user: UserId): SignupId
    requires ScheduleValid(s) && saId in s.scheduled && StoreWellFormed(s, st)
  {
    var existing := InBlock(s, st.signups, user, s.scheduled[saId].block);
    if |existing| == 1 then OnlyElement(existing) else st.nextId
  }

  /**
   * After a successful add_user the user has exactly one signup in the block
   * and it points to this scheduled activity. An existing signup in the block
   * keeps its id and after_deadline; otherwise one signup is created with the
   * next id. No other signup changes.
   */
  lemma AdmitPlacesUser(s: Schedule, st: Store, saId: SaId, user: UserId, request: Option<Request>,
                        force: bool, now: int)
    requires ScheduleValid(s) && saId in s.scheduled && StoreWellFormed(s, st)
    requires Admit(s, st, saId, user, request, force, now).Success?
    ensures var st' := Admit(s, st, saId, user, request, force, now).value;
      var block := s.scheduled[saId].block;
      var before := InBlock(s, st.signups, user, block);
      var t := Target(s, st, saId, user);
      && InBlock(s, st'.signups, user, block) == {t}
      && t in st'.signups && st'.signups[t].user == user && st'.signups[t].scheduledActivity == saId
      && st'.signups.Keys == st.signups.Keys + {t}
      && (forall id :: id in st.signups && id != t ==> id in st'.signups && st'.signups[id] == st.signups[id])
      && (t in st.signups ==> before == {t} && st'.nextId == st.nextId
                              && st'.signups[t].afterDeadline == st.signups[t].afterDeadline)
      && (t !in st.signups ==> before == {} && t == st.nextId && st'.nextId == st.nextId + 1
                               && !st'.signups[t].afterDeadline)
  {
    var block := s.scheduled[saId].block;
    var before := InBlock(s, st.signups, user, block);
    var st' := Admit(s, st, saId, user, request, force, now).value;
    var t := Target(s, st, saId, user);
    if |before| == 1 {
      assert before == {t};
      assert st'.signups == st.signups[t := st.signups[t].(scheduledActivity := saId)];
    } else {
      assert before == {};
      assert t !in st.signups;
      assert st'.signups == st.signups[t := Signup(user, saId, false)];
    }
    assert InBlock(s, st'.signups, user, block) == {t};
  }

  /** add_user keeps one signup per (user, block), and so one per (user, scheduled activity). */
  lemma AdmitKeepsOnePerBlock(s: Schedule, st: Store, saId: SaId, user: UserId, request: Option<Request>,
                              force: bool, now: int)
    requires ScheduleValid(s) && saId in s.scheduled && StoreWellFormed(s, st)
    requires OnePerBlock(s, st.signups)
    requires Admit(s, st, saId, user, request, force, now).Success?
    ensures var st' := Admit(s, st, saId, user, request, force, now).value;
      OnePerBlock(s, st'.signups) && OnePerScheduledActivity(st'.signups)
  {
    var st' := Admit(s, st, saId, user, request, force, now).value;
    var block := s.scheduled[saId].block;
    var t := Target(s, st, saId, user);
    AdmitPlacesUser(s, st, saId, user, request, force, now);
    forall i, j | i in st'.signups && j in st'.signups && i != j && st'.signups[i].user == st'.signups[j].user
      ensures s.scheduled[st'.signups[i].scheduledActivity].block != s.scheduled[st'.signups[j].scheduledActivity].block
    {
      if i == t {
        assert j !in InBlock(s, st'.signups, user, block);
      } else if j == t {
        assert i !in InBlock(s, st'.signups, user, block);
      }
    }
  }

  /** With one signup per (user, block) the lookup never finds two. */
  lemma OnePerBlockAvoidsMultipleObjects(s: Schedule, st: Store, saId: SaId, user: UserId,
                                         request: Option<Request>, force: bool, now: int)
    requires ScheduleValid(s) && saId in s.scheduled && StoreWellFormed(s, st)
    requires OnePerBlock(s, st.signups)
    ensures Admit(s, st, saId, user, request, force, now) != Failure(MultipleObjectsReturned)
  {
    var existing := InBlock(s, st.signups, user, s.scheduled[saId].block);
    if existing != {} {
      var id :| id in existing;
      assert existing == {id};
    }
  }

  /** EighthSignup.validate_unique: no other signup of the same user in the same block. */
  predicate ValidateUnique(s: Schedule, signups: map<SignupId, Signup>, pk: Option<SignupId>, su: Signup)
    requires forall id :: id in signups ==> signups[id].scheduledActivity in s.scheduled
    requires su.scheduledActivity in s.scheduled
  {
    !exists id :: id in signups && Some(id) != pk && signups[id].user == su.user
      && s.scheduled[signups[id].scheduledActivity].block == s.scheduled[su.scheduledActivity].block
  }

  /** The table holds one signup per (user, block) exactly when every signup passes validate_unique. */
  lemma OnePerBlockIffValidated(s: Schedule, signups: map<SignupId, Signup>)
    requires forall id :: id in signups ==> signups[id].scheduledActivity in s.scheduled
    ensures OnePerBlock(s, signups) <==> forall id :: id in signups ==> ValidateUnique(s, signups, Some(id), signups[id])
  {
  }

  lemma SubsetCardinality(a: set<SignupId>, b: set<SignupId>)
    requires a <= b
    ensures |a| <= |b|
  {
    assert b == a + (b - a);
  }

  /** add_user adds at most one signup to this scheduled activity and none to any other. */
  lemma AdmitCounts(s: Schedule, st: Store, saId: SaId, user: UserId, request: Option<Request>,
                    force: bool, now: int)
    requires ScheduleValid(s) && saId in s.scheduled && StoreWellFormed(s, st)
    requires Admit(s, st, saId, user, request, force, now).Success?
    ensures var st' := Admit(s, st, saId, user, request, force, now).value;
      && |SignupsFor(st'.signups, saId)| <= |SignupsFor(st.signups, saId)| + 1
      && forall x :: x != saId ==> |SignupsFor(st'.signups, x)| <= |SignupsFor(st.signups, x)|
  {
    var st' := Admit(s, st, saId, user, request, force, now).value;
    var t := Target(s, st, saId, user);
    AdmitPlacesUser(s, st, saId, user, request, force, now);
    assert SignupsFor(st'.signups, saId) <= SignupsFor(st.signups, saId) + {t};
    SubsetCardinality(SignupsFor(st'.signups, saId), SignupsFor(st.signups, saId) + {t});
    forall x | x != saId ensures |SignupsFor(st'.signups, x)| <= |SignupsFor(st.signups, x)| {
      SubsetCardinality(SignupsFor(st'.signups, x), SignupsFor(st.signups, x));
    }
  }

  /** An unlimited scheduled activity is never full; one below -1 always is. */
  lemma FullnessOfSentinelCapacities(s: Schedule, signups: map<SignupId, Signup>, saId: SaId)
    requires ScheduleValid(s) && saId in s.scheduled
    ensures TrueCapacityOf(s, saId) == Unlimited ==> !IsFull(s, signups, saId)
    ensures TrueCapacityOf(s, saId) < Unlimited ==> IsFull(s, signups, saId)
  {
  }

  /**
   * A successful unforced add_user leaves a limited scheduled activity with
   * no more signups than its capacity.
   */
  lemma UnforcedAdmitRespectsCapacity(s: Schedule, st: Store, saId: SaId, user: UserId,
                                      request: Option<Request>, force: bool, now: int)
    requires ScheduleValid(s) && saId in s.scheduled && StoreWellFormed(s, st)
    requires !EffectiveForce(request, force) && TrueCapacityOf(s, saId) >= 0
    requires Admit(s, st, saId, user, request, force, now).Success?
    ensures |SignupsFor(Admit(s, st, saId, user, request, force, now).value.signups, saId)| <= TrueCapacityOf(s, saId)
  {
    AdmitCounts(s, st, saId, user, request, force, now);
  }

  /** Every limited scheduled activity holds at most its capacity in signups. */
  predicate WithinCapacity(s: Schedule, signups: map<SignupId, Signup>)
    requires ScheduleValid(s)
  {
    forall x :: x in s.scheduled && TrueCapacityOf(s, x) >= 0 ==> |SignupsFor(signups, x)| <= TrueCapacityOf(s, x)
  }

  /** Unforced add_user calls keep every limited scheduled activity within capacity. */
  lemma UnforcedAdmitKeepsWithinCapacity(s: Schedule, st: Store, saId: SaId, user: UserId,
                                         request: Option<Request>, force: bool, now: int)
    requires ScheduleValid(s) && saId in s.scheduled && StoreWellFormed(s, st)
    requires WithinCapacity(s, st.signups) && !EffectiveForce(request, force)
    requires Admit(s, st, saId, user, request, force, now).Success?
    ensures WithinCapacity(s, Admit(s, st, saId, user, request, force, now).value.signups)
  {
    var st' := Admit(s, st, saId, user, request, force, now).value;
    AdmitCounts(s, st, saId, user, request, force, now);
    forall x | x in s.scheduled && TrueCapacityOf(s, x) >= 0 ensures |SignupsFor(st'.signups, x)| <= TrueCapacityOf(s, x) {
      if x == saId {
        UnforcedAdmitRespectsCapacity(s, st, saId, user, request, force, now);
      }
    }
  }

  /** Only the fullness, Sticky and OneADay checks read the signup table. */
  lemma ChecksAfterPassing(s: Schedule, signups: map<SignupId, Signup>, signups': map<SignupId, Signup>,
                           saId: SaId, user: UserId, request: Option<Request>, now: int)
    requires ScheduleValid(s) && saId in s.scheduled
    requires FirstFailure(s, signups, saId, user, request, now) == None
    ensures FirstFailure(s, signups', saId, user, request, now) ==
      if IsFull(s, signups', saId) then Some(ActivityFull)
      else if InASticky(s, signups', saId, user) then Some(Sticky)
      else if ActivityOf(s, saId).oneADay && InActSameDay(s, signups', saId, user) then Some(OneADay)
      else None
  {
  }

  /**
   * Repeating a successful add_user with the same arguments changes nothing:
   * a forced repeat succeeds on the same store; an unforced repeat raises
   * ActivityFull if the first call filled the activity, else Sticky if the
   * activity is sticky, else succeeds on the same store.
   */
  lemma AdmitTwice(s: Schedule, st: Store, saId: SaId, user: UserId, request: Option<Request>,
                   force: bool, now: int)
    requires ScheduleValid(s) && saId in s.scheduled && StoreWellFormed(s, st)
    requires Admit(s, st, saId, user, request, force, now).Success?
    ensures var st1 := Admit(s, st, saId, user, request, force, now).value;
      Admit(s, st1, saId, user, request, force, now) ==
        if EffectiveForce(request, force) then Success(st1)
        else if IsFull(s, st1.signups, saId) then Failure(ActivityFull)
        else if ActivityOf(s, saId).sticky then Failure(Sticky)
        else Success(st1)
  {
    var st1 := Admit(s, st, saId, user, request, force, now).value;
    var t := Target(s, st, saId, user);
    AdmitPlacesUser(s, st, saId, user, request, force, now);
    AdmitWhenPlaced(s, st1, saId, user, request, force, now, t);
    if !EffectiveForce(request, force) {
      assert FirstFailure(s, st.signups, saId, user, request, now) == None;
      ChecksAfterPassing(s, st.signups, st1.signups, saId, user, request, now);
      assert InASticky(s, st1.signups, saId, user) <==> ActivityOf(s, saId).sticky by {
        if ActivityOf(s, saId).sticky {
          assert t in SignupsFor(st1.signups, saId);
        }
      }
      OneADayNeverRaised(s, st1.signups, saId, user, request, now);
    }
  }

  /** When the user's one signup in the block already points here, add_user changes nothing. */
  lemma AdmitWhenPlaced(s: Schedule, st: Store, saId: SaId, user: UserId, request: Option<Request>,
                        force: bool, now: int, t: SignupId)
    requires ScheduleValid(s) && saId in s.scheduled && StoreWellFormed(s, st)
    requires InBlock(s, st.signups, user, s.scheduled[saId].block) == {t}
    requires st.signups[t].scheduledActivity == saId
    ensures var f := FirstFailure(s, st.signups, saId, user, request, now);
      Admit(s, st, saId, user, request, force, now) ==
        if !EffectiveForce(request, force) && f.Some? then Failure(f.value) else Success(st)
  {
    var existing := InBlock(s, st.signups, user, s.scheduled[saId].block);
    assert OnlyElement(existing) == t;
    assert st.signups[t := st.signups[t].(scheduledActivity := saId)] == st.signups;
  }

  /**
   * As written, a one-a-day activity scheduled in blocks A and B of the same
   * date admits a user to B who already holds a signup for it in A.
   */
  lemma OneADayScenarioAdmitted()
    ensures var chess := Activity("Chess Club", "", [], [], false, false, true, false, false, false, false);
      var s := Schedule(
        map[1 := Blocks.Block(1, 10, "A", false), 2 := Blocks.Block(2, 10, "B", false)],
        map[7 := chess],
        map[100 := ScheduledActivity(1, 7, "", [], [], None, false, false),
            200 := ScheduledActivity(2, 7, "", [], [], None, false, false)]);
      var st := Store(map[0 := Signup(5, 100, false)], 1);
      ScheduleValid(s) && StoreWellFormed(s, st) &&
      Admit(s, st, 200, 5, None, false, 0) == Success(Store(st.signups[1 := Signup(5, 200, false)], 2))
  {
    var chess := Activity("Chess Club", "", [], [], false, false, true, false, false, false, false);
    var s := Schedule(
      map[1 := Blocks.Block(1, 10, "A", false), 2 := Blocks.Block(2, 10, "B", false)],
      map[7 := chess],
      map[100 := ScheduledActivity(1, 7, "", [], [], None, false, false),
          200 := ScheduledActivity(2, 7, "", [], [], None, false, false)]);
    var st := Store(map[0 := Signup(5, 100, false)], 1);
    assert SignupsFor(st.signups, 200) == {};
    assert InBlock(s, st.signups, 5, 2) == {};
    OneADayNeverRaised(s, st.signups, 200, 5, None, 0);
  }

  /** The store, as a class whose add_user changes its table in place. */
  class SignupStore {
    var signups: map<SignupId, Signup>
    var nextId: SignupId

    function State(): Store
      reads this
    {
      Store(signups, nextId)
    }

    constructor ()
      ensures signups == map[] && nextId == 0
    {
      signups := map[];
      nextId := 0;
    }

    /** EighthScheduledActivity.add_user; `now` stands for the wall clock. */
    method AddUser(s: Schedule, saId: SaId, user: UserId, request: Option<Request>, force: bool, now: int)
      returns (outcome: Outcome<SignupError>)
      requires ScheduleValid(s) && saId in s.scheduled && StoreWellFormed(s, State())
      modifies this
      ensures StoreWellFormed(s, State())
      ensures outcome.Fail? ==> signups == old(signups) && nextId == old(nextId)
      ensures Admit(s, old(State()), saId, user, request, force, now) ==
        (if outcome.Pass? then Success(State()) else Failure(outcome.error))
    {
      var forced := force;
      if request.Some? {
        forced := force || (request.value.forceParam && request.value.isEighthAdmin);
      }

      if !forced {
        var sa := s.scheduled[saId];
        var block := s.blocks[sa.block];
        var act := s.activities[sa.activity];
        if request.Some? {
          if user != request.value.user && !request.value.isEighthAdmin {
            return Fail(SignupForbidden);
          }
        }
        if block.locked {
          return Fail(BlockLocked);
        }
        if sa.cancelled {
          return Fail(ScheduledActivityCancelled);
        }
        if act.deleted {
          return Fail(ActivityDeleted);
        }
        if IsFull(s, signups, saId) {
          return Fail(ActivityFull);
        }
        if act.presign {
          if IsTooEarlyToSignup(block.date, now) {
            return Fail(Presign);
          }
        }
        if InASticky(s, signups, saId, user) {
          return Fail(Sticky);
        }
        if act.oneADay {
          if InActSameDay(s, signups, saId, user) {
            return Fail(OneADay);
          }
        }
      }

      var existing := InBlock(s, signups, user, s.scheduled[saId].block);
      if |existing| > 1 {
        return Fail(MultipleObjectsReturned);
      }
      if |existing| == 1 {
        var id := OnlyElement(existing);
        signups := signups[id := signups[id].(scheduledActivity := saId)];
      } else {
        signups := signups[nextId := Signup(user, saId, false)];
        nextId := nextId + 1;
      }
      outcome := Pass;
    }
  }
}
