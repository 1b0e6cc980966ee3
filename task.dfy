/**
 * muckrock/task/models.py: resolving tasks, the stale-agency task's choice of request,
 * blacklisting the sender of an orphaned communication, setting the status and tracking
 * id a response task records, approving and rejecting a new agency, and the tasks shown
 * on a request's page.
 */
module Tasks {
  import opened Wrappers
  import opened Schema
  import Text
  import Agencies
  import Communications

  // ---------------------------------------------------------------- generate_status_action

  /** The verb of the activity-stream action for each status that has its own. */
  const STATUS_VERBS: map<string, string> := map[
    "rejected" := "rejected",
    "done" := "completed",
    "partial" := "partially completed",
    "processed" := "acknowledged",
    "no_docs" := "has no responsive documents",
    "fix" := "requires fix",
    "payment" := "requires payment"
  ]

  const DEFAULT_VERB := "is processing"

  /** `verbs.get(foia.status, 'is processing')` */
  function StatusVerb(status: string): (v: string)
    ensures status in STATUS_VERBS ==> v == STATUS_VERBS[status]
    ensures status !in STATUS_VERBS ==> v == DEFAULT_VERB
  {
    if status in STATUS_VERBS then STATUS_VERBS[status] else DEFAULT_VERB
  }

  /** The verb tells the status apart: the listed statuses have distinct verbs, none of them the default one. */
  lemma StatusVerbIdentifiesStatus(s1: string, s2: string)
    ensures StatusVerb(s1) == DEFAULT_VERB <==> s1 !in STATUS_VERBS
    ensures s1 in STATUS_VERBS && s2 in STATUS_VERBS && StatusVerb(s1) == StatusVerb(s2) ==> s1 == s2
  {
  }

  /** An activity-stream action: `actor` `verb` `target`. */
  datatype Action = Action(actor: Agency, verb: string, target: FoiaRequest)

  /** generate_status_action: the action sent for a request's new status; none without an agency. */
  function StatusAction(foia: FoiaRequest): (r: Option<Action>)
    reads foia
    ensures r.None? <==> foia.agency == null
    ensures r.Some? ==> r.value.actor == foia.agency && r.value.target == foia
    ensures r.Some? ==> (r.value.verb == DEFAULT_VERB <==> foia.status !in STATUS_VERBS)
  {
    if foia.agency == null then None else Some(Action(foia.agency, StatusVerb(foia.status), foia))
  }

  // ---------------------------------------------------------------- resolve

  /** The fields Task.resolve sets. */
  predicate ResolvedBy(t: Task, user: Option<UserId>, now: Time)
    reads t
  {
    t.resolved && t.resolvedBy == user && t.dateDone == Some(now)
  }

  /** Task.resolve */
  method ResolveTask(t: Task, user: Option<UserId>, now: Time)
    modifies t`resolved, t`resolvedBy, t`dateDone
    ensures ResolvedBy(t, user, now)
  {
    t.resolved := true;
    t.resolvedBy := user;
    t.dateDone := Some(now);
  }

  /**
   * `task.resolve(user)` on a task of any type: StaleAgencyTask first clears its agency's
   * stale flag and saves the agency; every other type resolves as Task does.
   */
  method Resolve(t: Task, user: Option<UserId>, now: Time)
    modifies t`resolved, t`resolvedBy, t`dateDone
    modifies (if t.kind.StaleAgency? then {t.kind.agency} else {})`stale
    modifies (if t.kind.StaleAgency? then {t.kind.agency} else {})`email
    modifies (if t.kind.StaleAgency? then {t.kind.agency} else {})`name
    ensures ResolvedBy(t, user, now)
    ensures t.kind.StaleAgency? ==>
              !t.kind.agency.stale && t.kind.agency.manualStale == old(t.kind.agency.manualStale)
              && t.kind.agency.email == Text.Strip(old(t.kind.agency.email))
              && t.kind.agency.name == Text.Strip(old(t.kind.agency.name))
  {
    if t.kind.StaleAgency? {
      t.kind.agency.stale := false;
      Agencies.Save(t.kind.agency);
    }
    ResolveTask(t, user, now);
  }

  /** A resolved stale task is no longer among its agency's unresolved ones. */
  lemma ResolvedTaskNotOpen(tasks: seq<Task>, t: Task, agency: Agency)
    requires t.resolved
    ensures t !in Agencies.OpenStaleTasks(tasks, agency)
  {
  }

  // ---------------------------------------------------------------- stale requests

  /** `FOIARequest.objects.get_open().filter(agency=agency)`, given the open requests in query order. */
  function AgencyRequests(open: seq<FoiaRequest>, agency: Agency): (r: seq<FoiaRequest>)
    reads open
    ensures |r| <= |open|
    ensures forall f :: f in r ==> f in open && f.agency == agency
    ensures forall f :: f in open && f.agency == agency ==> f in r
  {
    if open == [] then []
    else
      var last := open[|open| - 1];
      assert open == open[..|open| - 1] + [last];
      AgencyRequests(open[..|open| - 1], agency) + (if last.agency == agency then [last] else [])
  }

  /**
   * StaleAgencyTask.stale_requests. The loop builds the list of requests whose latest
   * response is at least STALE_DURATION old, but the method returns `requests`, all the
   * agency's open requests; the discarded list has no other effect.
   */
  function StaleRequests(open: seq<FoiaRequest>, agency: Agency): (r: seq<FoiaRequest>)
    reads open
    ensures forall f :: f in r ==> f in open && f.agency == agency
    ensures forall f :: f in open && f.agency == agency ==> f in r
  {
    AgencyRequests(open, agency)
  }

  /** Python 2's `a >= b` on the values latest_response() returns: None is below every number. */
  predicate PyGe(a: Option<int>, b: Option<int>) {
    b.None? || (a.Some? && a.value >= b.value)
  }

  lemma PyGeTotal(a: Option<int>, b: Option<int>)
    ensures PyGe(a, b) || PyGe(b, a)
  {
  }

  lemma PyGeTransitive(a: Option<int>, b: Option<int>, c: Option<int>)
    requires PyGe(a, b) && PyGe(b, c)
    ensures PyGe(a, c)
  {
  }

  /** The latest_response() of each request, in order. */
  function LatestResponses(requests: seq<FoiaRequest>): (r: seq<Option<int>>)
    reads requests
    ensures |r| == |requests|
    ensures forall i :: 0 <= i < |requests| ==> r[i] == requests[i].latestResponse
  {
    if requests == [] then []
    else LatestResponses(requests[..|requests| - 1]) + [requests[|requests| - 1].latestResponse]
  }

  /**
   * The position stalest_request's loop settles on: a greatest value, the last one among
   * equals, since a later value replaces the current one when it is `>=`.
   */
  function LastMaxIndex(xs: seq<Option<int>>): (i: nat)
    requires xs != []
    ensures i < |xs|
    ensures forall k :: 0 <= k < |xs| ==> PyGe(xs[i], xs[k])
    ensures forall k :: i < k < |xs| ==> !PyGe(xs[k], xs[i])
  {
    if |xs| == 1 then 0
    else
      var n := |xs| - 1;
      var j := LastMaxIndex(xs[..n]);
      assert forall k :: 0 <= k < n ==> xs[..n][k] == xs[k];
      if PyGe(xs[n], xs[j]) then
        assert forall k :: 0 <= k < n ==> PyGe(xs[n], xs[k]) by {
          forall k | 0 <= k < n ensures PyGe(xs[n], xs[k]) {
            PyGeTransitive(xs[n], xs[j], xs[k]);
          }
        }
        n
      else
        PyGeTotal(xs[n], xs[j]);
        j
  }

  /** The loop of stalest_request, over the latest responses: the position of the value it keeps. */
  method StalestIndex(xs: seq<Option<int>>) returns (index: nat)
    requires xs != []
    ensures index == LastMaxIndex(xs)
  {
    index := 0;
    var i := 0;
    while i < |xs|
      invariant 0 <= i <= |xs| && index < |xs|
      invariant i == 0 ==> index == 0
      invariant i > 0 ==> index == LastMaxIndex(xs[..i])
    {
      assert xs[..i + 1][..i] == xs[..i];
      if PyGe(xs[i], xs[index]) {
        index := i;
      }
      i := i + 1;
    }
    assert xs[..i] == xs;
  }

  /**
   * StaleAgencyTask.stalest_request: the agency's open request with the greatest latest
   * response (the last of equals). `stale_requests[0]` raises IndexError when there is none.
   */
  method StalestRequest(open: seq<FoiaRequest>, agency: Agency) returns (r: Result<FoiaRequest>)
    ensures StaleRequests(open, agency) == [] ==> r == Err(IndexError)
    ensures StaleRequests(open, agency) != [] ==>
              r == Ok(StaleRequests(open, agency)[LastMaxIndex(LatestResponses(StaleRequests(open, agency)))])
  {
    var requests := StaleRequests(open, agency);
    if requests == [] {
      return Err(IndexError);
    }
    var index := StalestIndex(LatestResponses(requests));
    return Ok(requests[index]);
  }

  // ---------------------------------------------------------------- orphans and the blacklist

  /** `address.split('@')[1]` when '@' occurs: the text between the first '@' and the next one. */
  function SecondField(address: string): (r: string)
    requires '@' in address
    ensures '@' !in r
  {
    var first := Text.UpTo(address, '@');
    Text.UpTo(address[|first| + 1..], '@')
  }

  /** The domain get_sender_domain returns for a parsed address. */
  function DomainOf(address: string): (r: Option<string>)
    ensures r.None? <==> '@' !in address
  {
    if '@' !in address then None else Some(SecondField(address))
  }

  /**
   * The domain is exactly the text after the first '@', up to the next '@' or the end:
   * the address splits as local '@' domain rest, with no '@' in local or domain and rest
   * empty or starting with '@'.
   */
  lemma DomainOfSplits(address: string)
    requires '@' in address
    ensures var local := Text.UpTo(address, '@');
            var domain := DomainOf(address).value;
            |local| + 1 + |domain| <= |address|
            && address[..|local| + 1 + |domain|] == local + "@" + domain
            && '@' !in local && '@' !in domain
            && (|local| + 1 + |domain| == |address| || address[|local| + 1 + |domain|] == '@')
  {
    var local := Text.UpTo(address, '@');
    var rest := address[|local| + 1..];
    var domain := Text.UpTo(rest, '@');
    forall i | 0 <= i < |domain|
      ensures domain[i] == address[|local| + 1 + i]
    {
      assert domain[i] == rest[i];
    }
    JoinAround(address, local, domain);
  }

  /** A string that agrees with local, then '@', then domain, starts with local + "@" + domain. */
  lemma JoinAround(address: string, local: string, domain: string)
    requires |local| + 1 + |domain| <= |address| && address[|local|] == '@'
    requires forall i :: 0 <= i < |local| ==> local[i] == address[i]
    requires forall i :: 0 <= i < |domain| ==> domain[i] == address[|local| + 1 + i]
    ensures address[..|local| + 1 + |domain|] == local + "@" + domain
  {
  }

  /** An address with one '@' gives back its domain. */
  lemma DomainOfSimpleAddress(local: string, domain: string)
    requires '@' !in local && '@' !in domain
    ensures DomainOf(local + "@" + domain) == Some(domain)
  {
    var address := local + "@" + domain;
    assert address[|local|] == '@';
    Text.UpToStopsAtFirst(address, '@', |local|);
    assert address[|local| + 1..] == domain;
    Text.UpToWhole(domain, '@');
  }

  /** OrphanTask.get_sender_domain, with `parse` the address part of email.utils.parseaddr. */
  function GetSenderDomain(comm: Communication, parse: string -> string): (r: Option<string>)
    reads comm
    ensures r == DomainOf(parse(comm.privFromWho))
  {
    DomainOf(parse(comm.privFromWho))
  }

  /** An orphan task whose communication's sender contains `domain`, ignoring case (`priv_from_who__icontains`). */
  predicate IsOrphanFrom(t: Task, domain: string)
    reads if t.kind.Orphan? then {t.kind.comm} else {}
  {
    t.kind.Orphan? && Text.IContains(t.kind.comm.privFromWho, domain)
  }

  /** The empty domain ('x@' parses to it) is contained in every sender: it matches every orphan task. */
  lemma EmptyDomainMatchesEveryOrphan(t: Task)
    requires t.kind.Orphan?
    ensures IsOrphanFrom(t, "")
  {
    assert Text.OccursAt(Text.Lower(t.kind.comm.privFromWho), Text.Lower(""), 0);
  }

  /**
   * BlacklistDomain.resolve_matches: resolve, with no user, every orphan task whose sender
   * contains the domain; resolved ones are resolved again.
   */
  method ResolveMatches(db: Db, domain: string, now: Time)
    modifies (set t | t in db.tasks)`resolved
    modifies (set t | t in db.tasks)`resolvedBy
    modifies (set t | t in db.tasks)`dateDone
    ensures forall t :: t in db.tasks && IsOrphanFrom(t, domain) ==> ResolvedBy(t, None, now)
    ensures forall t :: t in db.tasks && !IsOrphanFrom(t, domain) ==> unchanged(t)
  {
    var i := 0;
    while i < |db.tasks|
      invariant 0 <= i <= |db.tasks|
      invariant forall t :: t in db.tasks ==> unchanged(t) || (IsOrphanFrom(t, domain) && ResolvedBy(t, None, now))
      invariant forall k :: 0 <= k < i && IsOrphanFrom(db.tasks[k], domain) ==> ResolvedBy(db.tasks[k], None, now)
    {
      var t := db.tasks[i];
      if IsOrphanFrom(t, domain) {
        assert t in db.tasks;
        ResolveTask(t, None, now);
      }
      i := i + 1;
    }
  }

  /**
   * OrphanTask.blacklist: when the sender has a domain, add it to the blacklist unless it
   * is there already (get_or_create), and resolve the orphan tasks that match it.
   */
  method Blacklist(db: Db, task: Task, parse: string -> string, now: Time)
    requires task.kind.Orphan?
    modifies db`blacklist
    modifies (set t | t in db.tasks)`resolved
    modifies (set t | t in db.tasks)`resolvedBy
    modifies (set t | t in db.tasks)`dateDone
    ensures GetSenderDomain(task.kind.comm, parse).None? ==>
              db.blacklist == old(db.blacklist) && forall t :: t in db.tasks ==> unchanged(t)
    ensures GetSenderDomain(task.kind.comm, parse).Some? ==>
              var domain := GetSenderDomain(task.kind.comm, parse).value;
              db.blacklist == (if domain in old(db.blacklist) then old(db.blacklist) else old(db.blacklist) + [domain])
              && (forall t :: t in db.tasks && IsOrphanFrom(t, domain) ==> ResolvedBy(t, None, now))
              && (forall t :: t in db.tasks && !IsOrphanFrom(t, domain) ==> unchanged(t))
  {
    var domain := GetSenderDomain(task.kind.comm, parse);
    if domain.None? {
      return;
    }
    if domain.value !in db.blacklist {
      db.blacklist := db.blacklist + [domain.value];
    }
    ResolveMatches(db, domain.value, now);
  }

  // ---------------------------------------------------------------- response tasks

  /** The statuses for which set_status stamps the request's date_done. */
  const DONE_STATUSES: set<string> := {"rejected", "no_docs", "done", "abandoned"}

  const INVALID_STATUS := "Invalid status."
  const NONE_STATUS := "'NoneType' object has no attribute 'status'"

  /**
   * ResponseTask.set_status: `statuses` are the codes of STATUS. An unknown status raises
   * before anything changes. Otherwise the communication's status is set and it is saved;
   * with `setFoia`, the request's status is set too (and its date_done, for the four final
   * statuses), and the status action is returned. An orphaned communication then has no
   * request to set, and raises.
   */
  method SetStatus(task: Task, status: string, setFoia: bool, statuses: set<string>) returns (r: Result<Option<Action>>)
    requires task.kind.Response?
    modifies task.kind.comm`status, task.kind.comm`body
    modifies (if task.kind.comm.foia != null then {task.kind.comm.foia} else {})`status
    modifies (if task.kind.comm.foia != null then {task.kind.comm.foia} else {})`dateDone
    ensures var comm := task.kind.comm;
            status !in statuses ==>
              r == Err(ValueError(INVALID_STATUS)) && unchanged(comm) && (comm.foia == null || unchanged(comm.foia))
    ensures var comm := task.kind.comm;
            status in statuses ==>
              comm.status == Some(status) && comm.body == Communications.Sanitized(old(comm.body), AgencyName(comm.foia))
    ensures var comm := task.kind.comm;
            status in statuses && !setFoia ==> r == Ok(None) && (comm.foia == null || unchanged(comm.foia))
    ensures var comm := task.kind.comm;
            status in statuses && setFoia && comm.foia == null ==> r == Err(AttributeError(NONE_STATUS))
    ensures var comm := task.kind.comm;
            status in statuses && setFoia && comm.foia != null ==>
              comm.foia.status == status
              && comm.foia.dateDone == (if status in DONE_STATUSES then Some(comm.date) else old(comm.foia.dateDone))
              && r == Ok(StatusAction(comm.foia))
  {
    var comm := task.kind.comm;
    if status !in statuses {
      return Err(ValueError(INVALID_STATUS));
    }
    comm.status := Some(status);
    Communications.SaveComm(comm);
    if setFoia {
      var foia := comm.foia;
      if foia == null {
        return Err(AttributeError(NONE_STATUS));
      }
      foia.status := status;
      if status in DONE_STATUSES {
        foia.dateDone := Some(comm.date);
      }
      return Ok(StatusAction(foia));
    }
    return Ok(None);
  }

  /** The Python type of set_tracking_id's argument: a unicode string, or anything else. */
  datatype TrackingArg = Unicode(text: string) | NotUnicode

  const NOT_UNICODE := "Tracking ID should be a unicode string."
  const ORPHAN_TRACKING := "The task communication is an orphan."

  /** ResponseTask.set_tracking_id */
  method SetTrackingId(task: Task, id: TrackingArg) returns (raised: Option<Exception>)
    requires task.kind.Response?
    modifies (if task.kind.comm.foia != null then {task.kind.comm.foia} else {})`trackingId
    ensures id.NotUnicode? ==> raised == Some(ValueError(NOT_UNICODE))
    ensures id.Unicode? && task.kind.comm.foia == null ==> raised == Some(ValueError(ORPHAN_TRACKING))
    ensures id.Unicode? && task.kind.comm.foia != null ==> raised == None && task.kind.comm.foia.trackingId == id.text
    ensures raised.Some? ==> task.kind.comm.foia == null || unchanged(task.kind.comm.foia)
  {
    if id.NotUnicode? {
      return Some(ValueError(NOT_UNICODE));
    }
    var comm := task.kind.comm;
    if comm.foia == null {
      return Some(ValueError(ORPHAN_TRACKING));
    }
    comm.foia.trackingId := id.text;
    return None;
  }

  // ---------------------------------------------------------------- flagged tasks

  /** What a flag points at. */
  datatype FlaggedRef = FlaggedRequest(foia: FoiaRequest) | FlaggedAgency(agency: Agency) | FlaggedJurisdiction(jurisdiction: int)

  const NO_FLAGGED := "No flagged object."

  /** FlaggedTask.flagged_object: the request, else the agency, else the jurisdiction; none of them raises. */
  function FlaggedObject(kind: TaskKind): (r: Result<FlaggedRef>)
    requires kind.Flagged?
  {
    if kind.flaggedFoia != null then Ok(FlaggedRequest(kind.flaggedFoia))
    else if kind.flaggedAgency != null then Ok(FlaggedAgency(kind.flaggedAgency))
    else if kind.flaggedJurisdiction.Some? then Ok(FlaggedJurisdiction(kind.flaggedJurisdiction.value))
    else Err(AttributeError(NO_FLAGGED))
  }

  /**
   * flagged_object fails exactly when nothing is set, and otherwise returns one of the set
   * references, never passing over a set one of higher priority.
   */
  lemma FlaggedObjectPriority(kind: TaskKind)
    requires kind.Flagged?
    ensures FlaggedObject(kind).Err? <==>
              kind.flaggedFoia == null && kind.flaggedAgency == null && kind.flaggedJurisdiction.None?
    ensures FlaggedObject(kind).Ok? && FlaggedObject(kind).value.FlaggedAgency? ==>
              kind.flaggedFoia == null && FlaggedObject(kind).value.agency == kind.flaggedAgency
    ensures FlaggedObject(kind).Ok? && FlaggedObject(kind).value.FlaggedJurisdiction? ==>
              kind.flaggedFoia == null && kind.flaggedAgency == null
              && kind.flaggedJurisdiction == Some(FlaggedObject(kind).value.jurisdiction)
    ensures kind.flaggedFoia != null ==> FlaggedObject(kind) == Ok(FlaggedRequest(kind.flaggedFoia))
  {
  }

  // ---------------------------------------------------------------- new agency tasks

  /** A request NewAgencyTask.pending_requests returns: one of the agency's, not in status 'started'. */
  predicate Pending(f: FoiaRequest, agency: Agency)
    reads f`agency, f`status
  {
    f.agency == agency && f.status != "started"
  }

  /** NewAgencyTask.pending_requests: the agency's requests whose status is not 'started', in table order. */
  function PendingRequests(foias: seq<FoiaRequest>, agency: Agency): (r: seq<FoiaRequest>)
    reads (set f | f in foias)`agency, (set f | f in foias)`status
    ensures |r| <= |foias|
    ensures forall f :: f in r ==> f in foias && Pending(f, agency)
    ensures forall f :: f in foias && Pending(f, agency) ==> f in r
  {
    if foias == [] then []
    else
      var last := foias[|foias| - 1];
      var rest := PendingRequests(foias[..|foias| - 1], agency);
      assert foias == foias[..|foias| - 1] + [last];
      rest + (if Pending(last, agency) then [last] else [])
  }

  /** Over a table of distinct rows, the pending requests hold no repeats. */
  lemma {:induction false} PendingRequestsDistinct(foias: seq<FoiaRequest>, agency: Agency)
    requires Distinct(foias)
    ensures Distinct(PendingRequests(foias, agency))
  {
    if foias != [] {
      var init := foias[..|foias| - 1];
      var last := foias[|foias| - 1];
      PendingRequestsDistinct(init, agency);
      var rest := PendingRequests(init, agency);
      assert last !in init by {
        assert foias == init + [last];
      }
      assert last !in rest;
    }
  }

  /** `foia.communications.all()`: the request's communications, in table order. */
  function CommsOf(comms: seq<Communication>, foia: FoiaRequest): (r: seq<Communication>)
    reads (set c | c in comms)`foia
    ensures forall c :: c in r ==> c in comms && c.foia == foia
    ensures forall c :: c in comms && c.foia == foia ==> c in r
  {
    if comms == [] then []
    else
      var last := comms[|comms| - 1];
      assert comms == comms[..|comms| - 1] + [last];
      CommsOf(comms[..|comms| - 1], foia) + (if last.foia == foia then [last] else [])
  }

  /**
   * The position of `comms[0]` under FOIACommunication's `ordering = ['date']`: the earliest
   * date, and among communications of the same date the first in table order.
   */
  function EarliestIndex(comms: seq<Communication>): (i: nat)
    requires comms != []
    reads (set c | c in comms)`date
    ensures i < |comms|
    ensures forall k :: 0 <= k < |comms| ==> comms[i].date <= comms[k].date
    ensures forall k :: 0 <= k < i ==> comms[k].date > comms[i].date
  {
    if |comms| == 1 then 0
    else
      var n := |comms| - 1;
      var j := EarliestIndex(comms[..n]);
      assert comms[..n][j] == comms[j];
      if comms[n].date < comms[j].date then n else j
  }

  /** What resending to `address` does to a request's submissions: one more, by snail mail unless an address is given. */
  function Resubmitted(submissions: seq<bool>, address: string): seq<bool> {
    submissions + [address == ""]
  }

  /**
   * The request's submissions and email, against their earlier values, after its first
   * communication was resent to `address` (`resent`) or not.
   */
  predicate Resent(f: FoiaRequest, submissions0: seq<bool>, email0: string, resent: bool, address: string)
    reads f`submissions, f`email
  {
    if resent then f.submissions == Resubmitted(submissions0, address) && f.email == (if address != "" then address else email0)
    else f.submissions == submissions0 && f.email == email0
  }

  /**
   * The resend in approve's and reject's loops for one request: resend its first
   * communication by date, if it has any, to `address`.
   */
  method ResendFirst(db: Db, foia: FoiaRequest, address: string, now: Time, valid: string -> bool, ghost comms: set<Communication>)
    returns (raised: Option<Exception>)
    requires forall c :: c in db.comms && c.foia == foia ==> c in comms
    modifies foia`email, foia`submissions, comms`date, comms`body
    ensures raised.Some? <==> CommsOf(db.comms, foia) != [] && address != "" && !valid(address)
    ensures raised.Some? ==> raised == Some(ValidationError)
    ensures Resent(foia, old(foia.submissions), old(foia.email), CommsOf(db.comms, foia) != [] && raised.None?, address)
    ensures old(CommsOf(db.comms, foia)) != [] ==> old(CommsOf(db.comms, foia)[EarliestIndex(CommsOf(db.comms, foia))]).date == now
  {
    var comms := CommsOf(db.comms, foia);
    if comms == [] {
      return None;
    }
    var first := comms[EarliestIndex(comms)];
    assert first in comms;
    raised := Communications.Resend(first, Some(address), now, valid);
    assert CommsOf(db.comms, foia) == comms;
  }

  /**
   * NewAgencyTask.approve: mark the agency approved and save it, then resend the first
   * communication of each pending request to the agency's get_email() address. A
   * ValidationError from a resend stops the loop and escapes.
   */
  method Approve(db: Db, task: Task, now: Time, valid: string -> bool) returns (raised: Option<Exception>)
    requires task.kind.NewAgency? && Distinct(db.foias)
    modifies task.kind.agency`status, task.kind.agency`email, task.kind.agency`name
    modifies (set f | f in db.foias && Pending(f, task.kind.agency))`email
    modifies (set f | f in db.foias && Pending(f, task.kind.agency))`submissions
    modifies (set c | c in db.comms && c.foia in db.foias && Pending(c.foia, task.kind.agency))`date
    modifies (set c | c in db.comms && c.foia in db.foias && Pending(c.foia, task.kind.agency))`body
    ensures var agency := task.kind.agency;
            agency.status == Approved
            && agency.email == Text.Strip(old(agency.email)) && agency.name == Text.Strip(old(agency.name))
    ensures var address := Agencies.GetEmail(task.kind.agency.email, task.kind.agency.fax);
            raised.None? ==>
              forall f :: f in db.foias && old(Pending(f, task.kind.agency)) ==>
                Resent(f, old(f.submissions), old(f.email), CommsOf(db.comms, f) != [], address)
    ensures raised.Some? ==> raised == Some(ValidationError)
  {
    var agency := task.kind.agency;
    agency.status := Approved;
    Agencies.Save(agency);
    var address := Agencies.GetEmail(agency.email, agency.fax);
    raised := ResendPending(db, agency, None, address, now, valid);
  }

  /**
   * NewAgencyTask.reject: mark the agency rejected and save it, then move each pending
   * request to the replacement agency and resend its first communication to the
   * replacement's email field. A ValidationError from a resend stops the loop and escapes.
   */
  method Reject(db: Db, task: Task, replacement: Agency, now: Time, valid: string -> bool) returns (raised: Option<Exception>)
    requires task.kind.NewAgency? && Distinct(db.foias)
    modifies task.kind.agency`status, task.kind.agency`email, task.kind.agency`name
    modifies (set f | f in db.foias && Pending(f, task.kind.agency))`agency
    modifies (set f | f in db.foias && Pending(f, task.kind.agency))`email
    modifies (set f | f in db.foias && Pending(f, task.kind.agency))`submissions
    modifies (set c | c in db.comms && c.foia in db.foias && Pending(c.foia, task.kind.agency))`date
    modifies (set c | c in db.comms && c.foia in db.foias && Pending(c.foia, task.kind.agency))`body
    ensures var agency := task.kind.agency;
            agency.status == Rejected
            && agency.email == Text.Strip(old(agency.email)) && agency.name == Text.Strip(old(agency.name))
    ensures var address := old(if replacement == task.kind.agency then Text.Strip(replacement.email) else replacement.email);
            raised.None? ==>
              forall f :: f in db.foias && old(Pending(f, task.kind.agency)) ==>
                f.agency == replacement
                && Resent(f, old(f.submissions), old(f.email), CommsOf(db.comms, f) != [], address)
    ensures raised.Some? ==> raised == Some(ValidationError)
  {
    var agency := task.kind.agency;
    agency.status := Rejected;
    Agencies.Save(agency);
    raised := ResendPending(db, agency, Some(replacement), replacement.email, now, valid);
  }

  /** The loop of approve and reject over the agency's pending requests, as they are when it starts. */
  method ResendPending(db: Db, agency: Agency, moveTo: Option<Agency>, address: string, now: Time, valid: string -> bool)
    returns (raised: Option<Exception>)
    requires Distinct(db.foias)
    modifies (if moveTo.Some? then set f | f in db.foias && Pending(f, agency) else {})`agency
    modifies (set f | f in db.foias && Pending(f, agency))`email
    modifies (set f | f in db.foias && Pending(f, agency))`submissions
    modifies (set c | c in db.comms && c.foia in db.foias && Pending(c.foia, agency))`date
    modifies (set c | c in db.comms && c.foia in db.foias && Pending(c.foia, agency))`body
    ensures raised.Some? ==> raised == Some(ValidationError)
    ensures raised.None? ==>
              forall f :: f in db.foias && old(Pending(f, agency)) ==>
                (moveTo.Some? ==> f.agency == moveTo.value)
                && Resent(f, old(f.submissions), old(f.email), CommsOf(db.comms, f) != [], address)
  {
    var pending := PendingRequests(db.foias, agency);
    PendingRequestsDistinct(db.foias, agency);
    raised := ResendAll(db, pending, moveTo, address, now, valid, set c | c in db.comms && c.foia in pending);
  }

  /** One turn of approve's or reject's loop: move the request when rejecting, then resend its first communication. */
  method ResendOne(db: Db, foia: FoiaRequest, moveTo: Option<Agency>, address: string, now: Time, valid: string -> bool,
                   ghost hasComms: bool, ghost comms: set<Communication>)
    returns (raised: Option<Exception>)
    requires hasComms == (CommsOf(db.comms, foia) != [])
    requires forall c :: c in db.comms && c.foia == foia ==> c in comms
    modifies (if moveTo.Some? then {foia} else {})`agency
    modifies foia`email, foia`submissions, comms`date, comms`body
    ensures moveTo.Some? ==> foia.agency == moveTo.value
    ensures raised.Some? ==> raised == Some(ValidationError)
    ensures raised.None? ==> Resent(foia, old(foia.submissions), old(foia.email), hasComms, address)
  {
    if moveTo.Some? {
      foia.agency := moveTo.value;
    }
    raised := ResendFirst(db, foia, address, now, valid, comms);
  }

  /**
   * The loop of approve (`moveTo` None) and reject (`moveTo` the replacement): each pending
   * request in order, until a resend raises.
   */
  method ResendAll(db: Db, pending: seq<FoiaRequest>, moveTo: Option<Agency>, address: string, now: Time, valid: string -> bool,
                   ghost comms: set<Communication>)
    returns (raised: Option<Exception>)
    requires Distinct(pending)
    requires forall c :: c in db.comms && c.foia in pending ==> c in comms
    modifies (if moveTo.Some? then set f | f in pending else {})`agency
    modifies (set f | f in pending)`email
    modifies (set f | f in pending)`submissions
    modifies comms`date, comms`body
    ensures raised.Some? ==> raised == Some(ValidationError)
    ensures raised.None? ==>
              forall f :: f in pending ==>
                (moveTo.Some? ==> f.agency == moveTo.value)
                && Resent(f, old(f.submissions), old(f.email), CommsOf(db.comms, f) != [], address)
  {
    ghost var has := set f | f in pending && CommsOf(db.comms, f) != [];
    var i := 0;
    while i < |pending|
      invariant 0 <= i <= |pending|
      invariant forall c :: c in db.comms ==> c.foia == old(c.foia)
      invariant forall k :: 0 <= k < i ==>
                  (moveTo.Some? ==> pending[k].agency == moveTo.value)
                  && Resent(pending[k], old(pending[k].submissions), old(pending[k].email), pending[k] in has, address)
      invariant forall k :: i <= k < |pending| ==>
                  Resent(pending[k], old(pending[k].submissions), old(pending[k].email), false, address)
    {
      assert pending[i] in pending;
      assert forall k :: 0 <= k < |pending| && k != i ==> pending[k] != pending[i];
      raised := ResendOne(db, pending[i], moveTo, address, now, valid, pending[i] in has, comms);
      if raised.Some? {
        return;
      }
      i := i + 1;
    }
    forall f | f in pending
      ensures (moveTo.Some? ==> f.agency == moveTo.value)
              && Resent(f, old(f.submissions), old(f.email), CommsOf(db.comms, f) != [], address)
    {
      var k :| 0 <= k < |pending| && pending[k] == f;
    }
    return None;
  }

  // ---------------------------------------------------------------- filter_by_foia

  /** The task types filter_by_foia queries. */
  datatype TaskType = ResponseType | SnailMailType | FailedFaxType | RejectedEmailType | FlaggedType | StatusChangeType | NewAgencyType

  /** The communication of a task type that has one. */
  function TaskComm(kind: TaskKind): Communication?
  {
    match kind
    case Response(c) => c
    case SnailMail(c) => c
    case FailedFax(c) => c
    case _ => null
  }

  /** `task_type.objects.filter(...)`'s condition: the task is of the type, and belongs to `foia`. */
  predicate Matches(t: Task, ty: TaskType, foia: FoiaRequest)
    reads (if TaskComm(t.kind) != null then {TaskComm(t.kind)} else {}), foia
  {
    match ty
    case ResponseType => t.kind.Response? && t.kind.comm.foia == foia
    case SnailMailType => t.kind.SnailMail? && t.kind.comm.foia == foia
    case FailedFaxType => t.kind.FailedFax? && t.kind.comm.foia == foia
    case RejectedEmailType => t.kind.RejectedEmail? && t.kind.foia == foia
    case FlaggedType => t.kind.Flagged? && t.kind.flaggedFoia == foia
    case StatusChangeType => t.kind.StatusChange? && t.kind.request == foia
    case NewAgencyType => t.kind.NewAgency? && foia.agency != null && t.kind.agency == foia.agency
  }

  /** The tasks of one type that belong to `foia`, in table order. */
  function Select(tasks: seq<Task>, ty: TaskType, foia: FoiaRequest): (r: seq<Task>)
    reads set t | t in tasks && TaskComm(t.kind) != null :: TaskComm(t.kind), foia
    ensures forall t :: t in r ==> t in tasks && Matches(t, ty, foia)
    ensures forall t :: t in tasks && Matches(t, ty, foia) ==> t in r
  {
    if tasks == [] then []
    else
      var last := tasks[|tasks| - 1];
      assert tasks == tasks[..|tasks| - 1] + [last];
      Select(tasks[..|tasks| - 1], ty, foia) + (if Matches(last, ty, foia) then [last] else [])
  }

  /** The types filter_by_foia asks for, in the order it asks: staff see every type, others only new agency tasks. */
  function Types(isStaff: bool, foia: FoiaRequest): (r: seq<TaskType>)
    reads foia
  {
    (if isStaff then [ResponseType, SnailMailType, FailedFaxType, RejectedEmailType, FlaggedType, StatusChangeType] else [])
    + (if foia.agency != null then [NewAgencyType] else [])
  }

  /** The concatenated query results for the given types. */
  function SelectAll(tasks: seq<Task>, types: seq<TaskType>, foia: FoiaRequest): (r: seq<Task>)
    reads set t | t in tasks && TaskComm(t.kind) != null :: TaskComm(t.kind), foia
    ensures forall t :: t in r ==> t in tasks && exists ty :: ty in types && Matches(t, ty, foia)
    ensures forall t, ty :: t in tasks && ty in types && Matches(t, ty, foia) ==> t in r
  {
    if types == [] then []
    else
      assert types == [types[0]] + types[1..];
      Select(tasks, types[0], foia) + SelectAll(tasks, types[1..], foia)
  }

  /** TaskQuerySet.filter_by_foia */
  function FilterByFoia(tasks: seq<Task>, foia: FoiaRequest, isStaff: bool): (r: seq<Task>)
    reads set t | t in tasks && TaskComm(t.kind) != null :: TaskComm(t.kind), foia
    ensures forall t :: t in r ==> t in tasks && exists ty :: ty in Types(isStaff, foia) && Matches(t, ty, foia)
    ensures forall t, ty :: t in tasks && ty in Types(isStaff, foia) && Matches(t, ty, foia) ==> t in r
  {
    SelectAll(tasks, Types(isStaff, foia), foia)
  }

  /**
   * A user who is not staff sees exactly the new agency tasks of the request's agency, and
   * nothing when the request has no agency.
   */
  lemma NonStaffSeeNewAgencyTasksOnly(tasks: seq<Task>, foia: FoiaRequest)
    ensures forall t :: t in FilterByFoia(tasks, foia, false) <==>
              t in tasks && t.kind.NewAgency? && foia.agency != null && t.kind.agency == foia.agency
    ensures foia.agency == null ==> FilterByFoia(tasks, foia, false) == []
  {
    if foia.agency == null {
      assert Types(false, foia) == [];
    } else {
      assert Types(false, foia) == [NewAgencyType];
    }
  }

  /** Staff see every task that belongs to the request, of the seven types. */
  lemma StaffSeeEveryTaskOfRequest(tasks: seq<Task>, foia: FoiaRequest, t: Task)
    requires t in tasks
    ensures t in FilterByFoia(tasks, foia, true) <==>
              (t.kind.Response? && t.kind.comm.foia == foia) || (t.kind.SnailMail? && t.kind.comm.foia == foia)
              || (t.kind.FailedFax? && t.kind.comm.foia == foia) || (t.kind.RejectedEmail? && t.kind.foia == foia)
              || (t.kind.Flagged? && t.kind.flaggedFoia == foia) || (t.kind.StatusChange? && t.kind.request == foia)
              || (t.kind.NewAgency? && foia.agency != null && t.kind.agency == foia.agency)
  {
    var types := Types(true, foia);
    assert ResponseType in types && SnailMailType in types && FailedFaxType in types && RejectedEmailType in types;
    assert FlaggedType in types && StatusChangeType in types;
    assert foia.agency != null ==> NewAgencyType in types;
  }
}
