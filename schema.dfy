/**
 * The Django models the core reads and writes, reduced to the fields the core touches.
 *
 * The agency, FOIA and task apps refer to each other (an agency creates stale-agency
 * tasks, a task points at its agency), which Dafny modules cannot do in a cycle; so the
 * fields of these models are declared here, and each app's behaviour is in its own module.
 * The ORM's tables are the sequences of module Db; a row is found by its primary key.
 */
module Schema {
  import opened Wrappers

  /** An instant, as returned by datetime.now(); the clock is a parameter of every operation that reads it. */
  type Time = int
  /** A calendar date, as a day number; `(d1 - d2).days` is `d1 - d2`. */
  type Day = int
  /** A Django user, by primary key. */
  type UserId = nat

  /** The three choices of Agency.status. */
  datatype AgencyStatus = Pending | Approved | Rejected

  class Agency {
    const id: int
    const jurisdiction: int
    var name: string
    var status: AgencyStatus
    var stale: bool
    var manualStale: bool
    var email: string
    var fax: string

    constructor (id: int, jurisdiction: int, name: string, status: AgencyStatus, email: string, fax: string)
      ensures this.id == id && this.jurisdiction == jurisdiction && this.name == name
      ensures this.status == status && this.email == email && this.fax == fax
      ensures !stale && !manualStale
    {
      this.id := id;
      this.jurisdiction := jurisdiction;
      this.name := name;
      this.status := status;
      this.email := email;
      this.fax := fax;
      stale := false;
      manualStale := false;
    }
  }

  /**
   * A FOIA request. FOIARequest itself (muckrock/foia/models/request.py) is not part of this
   * model: `latestResponse` is what its latest_response() reports on the day in question (days
   * since the latest response, or None), and `submissions` records each call of its submit(),
   * true for a submission by snail mail.
   */
  class FoiaRequest {
    const id: int
    var agency: Agency?
    var status: string
    var email: string
    var trackingId: string
    var dateDone: Option<Time>
    var dateSubmitted: Day
    var latestResponse: Option<int>
    var submissions: seq<bool>

    constructor (id: int, agency: Agency?, status: string, email: string, dateSubmitted: Day, latestResponse: Option<int>)
      ensures this.id == id && this.agency == agency && this.status == status && this.email == email
      ensures this.dateSubmitted == dateSubmitted && this.latestResponse == latestResponse
      ensures trackingId == "" && dateDone == None && submissions == []
    {
      this.id := id;
      this.agency := agency;
      this.status := status;
      this.email := email;
      this.dateSubmitted := dateSubmitted;
      this.latestResponse := latestResponse;
      trackingId := "";
      dateDone := None;
      submissions := [];
    }
  }

  /** A FOIACommunication; `body` is its `communication` text field. */
  class Communication {
    var foia: FoiaRequest?
    var body: string
    var status: Option<string>
    var date: Time
    var privFromWho: string
    var response: bool

    constructor (foia: FoiaRequest?, body: string, status: Option<string>, date: Time, privFromWho: string, response: bool)
      ensures this.foia == foia && this.body == body && this.status == status
      ensures this.date == date && this.privFromWho == privFromWho && this.response == response
    {
      this.foia := foia;
      this.body := body;
      this.status := status;
      this.date := date;
      this.privFromWho := privFromWho;
      this.response := response;
    }
  }

  /** A FOIAFile attached to a communication; `hasData` is false when its stored file cannot be read. */
  class FoiaFile {
    var foia: FoiaRequest?
    var comm: Communication?
    const name: string
    const hasData: bool

    constructor (foia: FoiaRequest?, comm: Communication?, name: string, hasData: bool)
      ensures this.foia == foia && this.comm == comm && this.name == name && this.hasData == hasData
    {
      this.foia := foia;
      this.comm := comm;
      this.name := name;
      this.hasData := hasData;
    }
  }

  /**
   * The concrete task type of a Task row, with that subclass's own foreign keys
   * (Django's multi-table inheritance: one Task row, one subclass row).
   * Other stands for the task types the core never inspects (generic, crowdfund, multi-request).
   */
  datatype TaskKind =
    | Orphan(comm: Communication)
    | SnailMail(comm: Communication)
    | RejectedEmail(foia: FoiaRequest?)
    | StaleAgency(agency: Agency)
    | Flagged(flaggedFoia: FoiaRequest?, flaggedAgency: Agency?, flaggedJurisdiction: Option<int>)
    | NewAgency(agency: Agency)
    | Response(comm: Communication)
    | FailedFax(comm: Communication)
    | StatusChange(request: FoiaRequest)
    | Other

  /** The fields of the Task base model. */
  class Task {
    const kind: TaskKind
    var resolved: bool
    var resolvedBy: Option<UserId>
    var dateDone: Option<Time>

    constructor (kind: TaskKind)
      ensures this.kind == kind && !resolved && resolvedBy == None && dateDone == None
    {
      this.kind := kind;
      resolved := false;
      resolvedBy := None;
      dateDone := None;
    }
  }

  /** The tables. Each holds distinct objects, in the order the rows were added. */
  class Db {
    var agencies: seq<Agency>
    var foias: seq<FoiaRequest>
    var comms: seq<Communication>
    var files: seq<FoiaFile>
    var tasks: seq<Task>
    var blacklist: seq<string>

    constructor ()
      ensures agencies == [] && foias == [] && comms == [] && files == [] && tasks == [] && blacklist == []
    {
      agencies, foias, comms, files, tasks, blacklist := [], [], [], [], [], [];
    }
  }

  /** No object appears twice in a table. */
  predicate Distinct<T(==)>(s: seq<T>) {
    forall i, j :: 0 <= i < j < |s| ==> s[i] != s[j]
  }

  /** FOIARequest.objects.get(pk=pk), None standing for DoesNotExist. */
  function FindFoia(foias: seq<FoiaRequest>, pk: int): (r: Option<FoiaRequest>)
    ensures r.Some? ==> r.value in foias && r.value.id == pk
    ensures r.None? <==> forall f :: f in foias ==> f.id != pk
  {
    if |foias| == 0 then None
    else if foias[0].id == pk then Some(foias[0])
    else FindFoia(foias[1..], pk)
  }

  /** The name of the agency of a request, when it has one (`foia and foia.agency and foia.agency.name`). */
  function AgencyName(foia: FoiaRequest?): (r: Option<string>)
    reads foia, if foia != null && foia.agency != null then {foia.agency} else {}
    ensures r.Some? <==> foia != null && foia.agency != null
    ensures r.Some? ==> r.value == foia.agency.name
  {
    if foia != null && foia.agency != null then Some(foia.agency.name) else None
  }
}
