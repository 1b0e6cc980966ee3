/**
 * muckrock/agency/models.py: the agency's contact rules (fax normalisation, the
 * email-or-fax fallback), the staleness decision and the stale-task bookkeeping,
 * the sibling query and the list of known sender addresses.
 */
module Agencies {
  import opened Wrappers
  import opened Schema
  import Text

  /** Days without a response after which an agency counts as stale. */
  const STALE_DURATION := 120

  // ---------------------------------------------------------------- save

  /** Agency.save: strip the email and the name. (The slug is left out: slugify is Django's.) */
  method Save(agency: Agency)
    modifies agency`email, agency`name
    ensures agency.email == Text.Strip(old(agency.email))
    ensures agency.name == Text.Strip(old(agency.name))
  {
    agency.email := Text.Strip(agency.email);
    agency.name := Text.Strip(agency.name);
  }

  /** Saving twice gives the same email and name as saving once. */
  lemma SaveIdempotent(email: string, name: string)
    ensures Text.Strip(Text.Strip(email)) == Text.Strip(email)
    ensures Text.Strip(Text.Strip(name)) == Text.Strip(name)
  {
    Text.StripIdempotent(email);
    Text.StripIdempotent(name);
  }

  // ---------------------------------------------------------------- fax and email

  /** c.isdigit(), for the ASCII digits only. */
  predicate IsDigit(c: char) {
    '0' <= c <= '9'
  }

  predicate AllDigits(s: string) {
    forall i :: 0 <= i < |s| ==> IsDigit(s[i])
  }

  /** ''.join(c for c in s if c.isdigit()) */
  function Digits(s: string): (r: string)
    ensures AllDigits(r)
    ensures |r| <= |s|
  {
    if s == [] then [] else (if IsDigit(s[0]) then [s[0]] else []) + Digits(s[1..])
  }

  /** Keeping the digits of a string of digits keeps all of it. */
  lemma {:induction false} DigitsOfDigits(s: string)
    requires AllDigits(s)
    ensures Digits(s) == s
  {
    if s != [] {
      DigitsOfDigits(s[1..]);
    }
  }

  /** Keeping the digits works character by character: it distributes over concatenation. */
  lemma {:induction false} DigitsAppend(a: string, b: string)
    ensures Digits(a + b) == Digits(a) + Digits(b)
  {
    if a != [] {
      assert (a + b)[1..] == a[1..] + b;
      DigitsAppend(a[1..], b);
    } else {
      assert a + b == b;
    }
  }

  /** One character is kept when it is a digit and dropped otherwise. */
  lemma DigitsOne(c: char)
    ensures Digits([c]) == if IsDigit(c) then [c] else []
  {
    assert [c][1..] == [];
  }

  /** An 11-digit US fax number, as phaxio wants it. */
  predicate IsUsFax(s: string) {
    |s| == 11 && AllDigits(s) && s[0] == '1'
  }

  /** Agency.normalize_fax */
  function NormalizeFax(fax: string): (r: Option<string>)
    ensures r.Some? ==> IsUsFax(r.value)
    ensures r.Some? <==> |Digits(fax)| == 10 || IsUsFax(Digits(fax))
    ensures r.Some? ==> r.value[|r.value| - |Digits(fax)|..] == Digits(fax)
  {
    var digits := Digits(fax);
    if |digits| == 10 then Some("1" + digits)
    else if |digits| == 11 && digits[0] == '1' then Some(digits)
    else None
  }

  /** A normalised fax number normalises to itself. */
  lemma NormalizeFaxIdempotent(fax: string)
    requires NormalizeFax(fax).Some?
    ensures NormalizeFax(NormalizeFax(fax).value) == NormalizeFax(fax)
  {
    DigitsOfDigits(NormalizeFax(fax).value);
  }

  /** Agency.get_email: the email when there is one, else the normalised fax, else ''. */
  function GetEmail(email: string, fax: string): (r: string)
    ensures email != "" ==> r == email
    ensures email == "" ==> (r == "" <==> NormalizeFax(fax).None?)
    ensures email == "" && r != "" ==> IsUsFax(r) && Some(r) == NormalizeFax(fax)
  {
    if email != "" then email
    else match NormalizeFax(fax)
      case Some(number) => number
      case None => ""
  }

  // ---------------------------------------------------------------- staleness

  /** `if response:` on foia.latest_response(): None and 0 are both false. */
  predicate Responded(f: FoiaRequest)
    reads f
  {
    f.latestResponse.Some? && f.latestResponse.value != 0
  }

  /** The latest_responses list is_stale builds, in request order. */
  function ResponseAges(foias: seq<FoiaRequest>): (r: seq<int>)
    reads foias
    ensures |r| <= |foias|
    ensures forall a :: a in r ==> exists f :: f in foias && Responded(f) && a == f.latestResponse.value
    ensures forall f :: f in foias && Responded(f) ==> f.latestResponse.value in r
  {
    if foias == [] then []
    else
      var last := foias[|foias| - 1];
      ResponseAges(foias[..|foias| - 1]) + (if Responded(last) then [last.latestResponse.value] else [])
  }

  /** min(xs) */
  function Min(xs: seq<int>): (m: int)
    requires xs != []
    ensures m in xs && forall x :: x in xs ==> m <= x
  {
    if |xs| == 1 then xs[0]
    else
      var rest := Min(xs[1..]);
      assert xs == [xs[0]] + xs[1..];
      if xs[0] <= rest then xs[0] else rest
  }

  /** `order_by('date_submitted')`: the requests come oldest first. */
  predicate BySubmission(foias: seq<FoiaRequest>)
    reads foias
  {
    forall i, j :: 0 <= i < j < |foias| ==> foias[i].dateSubmitted <= foias[j].dateSubmitted
  }

  /**
   * The decision Agency.is_stale makes, given the agency's open requests in the order
   * the query yields them (by date_submitted) and today's date.
   */
  function StaleVerdict(manualStale: bool, openFoias: seq<FoiaRequest>, today: Day): (r: bool)
    requires BySubmission(openFoias)
    reads openFoias
    ensures manualStale ==> r
    ensures !manualStale && openFoias == [] ==> !r
  {
    if manualStale then true
    else if openFoias == [] then false
    else
      var ages := ResponseAges(openFoias);
      if ages != [] then Min(ages) >= STALE_DURATION
      else today - openFoias[0].dateSubmitted >= STALE_DURATION
  }

  /** Agency.is_stale */
  method IsStale(agency: Agency, openFoias: seq<FoiaRequest>, today: Day) returns (stale: bool)
    requires BySubmission(openFoias)
    ensures stale == StaleVerdict(agency.manualStale, openFoias, today)
  {
    if agency.manualStale {
      return true;
    }
    if openFoias == [] {
      return false;
    }
    var latestResponses: seq<int> := [];
    var i := 0;
    while i < |openFoias|
      invariant 0 <= i <= |openFoias|
      invariant latestResponses == ResponseAges(openFoias[..i])
    {
      var response := openFoias[i].latestResponse;
      if response.Some? && response.value != 0 {
        latestResponses := latestResponses + [response.value];
      }
      assert openFoias[..i + 1][..i] == openFoias[..i];
      i := i + 1;
    }
    assert openFoias[..i] == openFoias;
    if latestResponses != [] {
      return Min(latestResponses) >= STALE_DURATION;
    }
    return today - openFoias[0].dateSubmitted >= STALE_DURATION;
  }

  /**
   * When some open request has a response, the agency is stale exactly when every
   * open request that has one was last answered at least STALE_DURATION days ago.
   */
  lemma StaleIffEveryResponseOld(openFoias: seq<FoiaRequest>, today: Day)
    requires BySubmission(openFoias)
    requires exists f :: f in openFoias && Responded(f)
    ensures StaleVerdict(false, openFoias, today)
        <==> forall f :: f in openFoias && Responded(f) ==> f.latestResponse.value >= STALE_DURATION
  {
    var ages := ResponseAges(openFoias);
    var g :| g in openFoias && Responded(g);
    assert g.latestResponse.value in ages;
    var m := Min(ages);
    if StaleVerdict(false, openFoias, today) {
      forall f | f in openFoias && Responded(f)
        ensures f.latestResponse.value >= STALE_DURATION
      {
        assert f.latestResponse.value in ages;
      }
    } else {
      var f :| f in openFoias && Responded(f) && m == f.latestResponse.value;
      assert f.latestResponse.value < STALE_DURATION;
    }
  }

  /**
   * When no open request has a response, and the requests come oldest first, the agency
   * is stale exactly when some open request was submitted at least STALE_DURATION days ago.
   */
  lemma StaleIffSomeRequestOld(openFoias: seq<FoiaRequest>, today: Day)
    requires openFoias != []
    requires forall f :: f in openFoias ==> !Responded(f)
    requires BySubmission(openFoias)
    ensures StaleVerdict(false, openFoias, today)
        <==> exists f :: f in openFoias && today - f.dateSubmitted >= STALE_DURATION
  {
    if exists f :: f in openFoias && today - f.dateSubmitted >= STALE_DURATION {
      var f :| f in openFoias && today - f.dateSubmitted >= STALE_DURATION;
      var k :| 0 <= k < |openFoias| && openFoias[k] == f;
      assert k == 0 || openFoias[0].dateSubmitted <= openFoias[k].dateSubmitted;
    } else {
      assert openFoias[0] in openFoias;
    }
  }

  /** An open request answered today does not count as answered (`if response:` on 0). */
  lemma AnsweredTodayIsUnanswered(f: FoiaRequest)
    requires f.latestResponse == Some(0)
    ensures !Responded(f)
  {
  }

  // ---------------------------------------------------------------- stale tasks

  /** An unresolved StaleAgencyTask of this agency. */
  predicate IsOpenStaleTaskOf(t: Task, agency: Agency)
    reads t`resolved
  {
    t.kind.StaleAgency? && t.kind.agency == agency && !t.resolved
  }

  /** StaleAgencyTask.objects.filter(resolved=False, agency=agency), in table order. */
  function OpenStaleTasks(tasks: seq<Task>, agency: Agency): (r: seq<Task>)
    reads (set t | t in tasks)`resolved
    ensures |r| <= |tasks|
    ensures forall t :: t in r ==> t in tasks && IsOpenStaleTaskOf(t, agency)
    ensures forall t :: t in tasks && IsOpenStaleTaskOf(t, agency) ==> t in r
  {
    if tasks == [] then []
    else
      var last := tasks[|tasks| - 1];
      OpenStaleTasks(tasks[..|tasks| - 1], agency) + (if IsOpenStaleTaskOf(last, agency) then [last] else [])
  }

  lemma OpenStaleTasksAppend(tasks: seq<Task>, t: Task, agency: Agency)
    ensures OpenStaleTasks(tasks + [t], agency)
         == OpenStaleTasks(tasks, agency) + (if IsOpenStaleTaskOf(t, agency) then [t] else [])
  {
    assert (tasks + [t])[..|tasks|] == tasks;
  }

  /** The position of the first unresolved stale task of the agency, if any. */
  method FindOpenStaleTask(db: Db, agency: Agency) returns (k: Option<nat>)
    ensures k.None? <==> OpenStaleTasks(db.tasks, agency) == []
    ensures k.Some? ==> k.value < |db.tasks| && db.tasks[k.value] == OpenStaleTasks(db.tasks, agency)[0]
  {
    var i := 0;
    while i < |db.tasks|
      invariant 0 <= i <= |db.tasks|
      invariant OpenStaleTasks(db.tasks[..i], agency) == []
    {
      if IsOpenStaleTaskOf(db.tasks[i], agency) {
        FirstOpenStaleTask(db.tasks, agency, i);
        return Some(i);
      }
      OpenStaleTasksAppend(db.tasks[..i], db.tasks[i], agency);
      assert db.tasks[..i + 1] == db.tasks[..i] + [db.tasks[i]];
      i := i + 1;
    }
    assert db.tasks[..i] == db.tasks;
    return None;
  }

  /**
   * StaleAgencyTask.objects.get_or_create(resolved=False, agency=agency): the first
   * unresolved stale task of the agency in table order, or a new one appended to the table.
   */
  method GetOrCreateStaleTask(db: Db, agency: Agency) returns (task: Task)
    modifies db`tasks
    ensures task in db.tasks && task.kind == StaleAgency(agency) && !task.resolved
    ensures old(OpenStaleTasks(db.tasks, agency)) != [] ==>
              db.tasks == old(db.tasks) && task == old(OpenStaleTasks(db.tasks, agency))[0]
    ensures old(OpenStaleTasks(db.tasks, agency)) == [] ==>
              fresh(task) && db.tasks == old(db.tasks) + [task] && OpenStaleTasks(db.tasks, agency) == [task]
  {
    var found := FindOpenStaleTask(db, agency);
    if found.Some? {
      task := db.tasks[found.value];
    } else {
      task := CreateStaleTask(db, agency);
    }
  }

  /** The create half of get_or_create: a new unresolved stale task for the agency, appended to the table. */
  method CreateStaleTask(db: Db, agency: Agency) returns (task: Task)
    requires OpenStaleTasks(db.tasks, agency) == []
    modifies db`tasks
    ensures fresh(task) && task.kind == StaleAgency(agency) && !task.resolved
    ensures db.tasks == old(db.tasks) + [task] && OpenStaleTasks(db.tasks, agency) == [task]
  {
    task := new Task(StaleAgency(agency));
    OpenStaleTasksAppend(db.tasks, task, agency);
    db.tasks := db.tasks + [task];
  }

  /**
   * Agency.mark_stale: flag the agency stale (manually or not), save it, and return its
   * unresolved stale task, creating one only when there is none. When there are several,
   * the first in table order is returned.
   */
  method MarkStale(db: Db, agency: Agency, manual: bool) returns (task: Task)
    modifies agency`stale, agency`manualStale, agency`email, agency`name, db`tasks
    ensures agency.stale && agency.manualStale == manual
    ensures task in db.tasks && task.kind == StaleAgency(agency) && !task.resolved
    ensures old(OpenStaleTasks(db.tasks, agency)) != [] ==>
              db.tasks == old(db.tasks) && task == old(OpenStaleTasks(db.tasks, agency))[0]
    ensures old(OpenStaleTasks(db.tasks, agency)) == [] ==>
              fresh(task) && db.tasks == old(db.tasks) + [task] && OpenStaleTasks(db.tasks, agency) == [task]
    ensures agency.email == Text.Strip(old(agency.email)) && agency.name == Text.Strip(old(agency.name))
  {
    agency.stale := true;
    agency.manualStale := manual;
    Save(agency);
    assert forall t :: t in db.tasks ==> unchanged(t);
    assert OpenStaleTasks(db.tasks, agency) == old(OpenStaleTasks(db.tasks, agency));
    task := GetOrCreateStaleTask(db, agency);
  }

  /** With no open stale task before index i and one at i, that one is the first. */
  lemma {:induction false} FirstOpenStaleTask(tasks: seq<Task>, agency: Agency, i: nat)
    requires i < |tasks| && IsOpenStaleTaskOf(tasks[i], agency)
    requires OpenStaleTasks(tasks[..i], agency) == []
    ensures OpenStaleTasks(tasks, agency) != [] && OpenStaleTasks(tasks, agency)[0] == tasks[i]
    decreases |tasks|
  {
    if |tasks| == i + 1 {
      assert tasks[..|tasks| - 1] == tasks[..i];
    } else {
      assert tasks[..|tasks| - 1][..i] == tasks[..i];
      FirstOpenStaleTask(tasks[..|tasks| - 1], agency, i);
    }
  }

  /** A stale-agency task of this agency, resolved or not. */
  predicate IsStaleTaskOf(t: Task, agency: Agency) {
    t.kind.StaleAgency? && t.kind.agency == agency
  }

  /** No task of the list is an unresolved stale task of the agency. */
  lemma NoOpenStaleTasks(tasks: seq<Task>, agency: Agency)
    requires forall k :: 0 <= k < |tasks| ==> !IsOpenStaleTaskOf(tasks[k], agency)
    ensures OpenStaleTasks(tasks, agency) == []
  {
  }

  /**
   * StaleAgencyTask.objects.filter(resolved=False, agency=agency).update(resolved=True):
   * a queryset update, so resolved_by and date_done are not touched.
   */
  method ResolveStaleTasks(db: Db, agency: Agency)
    modifies set t | t in db.tasks :: t`resolved
    ensures OpenStaleTasks(db.tasks, agency) == []
    ensures forall t :: t in db.tasks ==> t.resolved == (old(t.resolved) || IsStaleTaskOf(t, agency))
  {
    var i := 0;
    while i < |db.tasks|
      invariant 0 <= i <= |db.tasks|
      invariant forall t :: t in db.tasks ==> t.resolved == old(t.resolved) || (t.resolved && IsStaleTaskOf(t, agency))
      invariant forall k :: 0 <= k < i ==> IsStaleTaskOf(db.tasks[k], agency) ==> db.tasks[k].resolved
    {
      var t := db.tasks[i];
      if IsOpenStaleTaskOf(t, agency) {
        assert t in db.tasks;
        t.resolved := true;
      }
      i := i + 1;
    }
    NoOpenStaleTasks(db.tasks, agency);
  }

  /** Agency.unmark_stale: clear both flags, save, and resolve every unresolved stale task of the agency. */
  method UnmarkStale(db: Db, agency: Agency)
    modifies agency`stale, agency`manualStale, agency`email, agency`name, set t | t in db.tasks :: t`resolved
    ensures !agency.stale && !agency.manualStale
    ensures OpenStaleTasks(db.tasks, agency) == []
    ensures forall t :: t in db.tasks ==> t.resolved == (old(t.resolved) || IsStaleTaskOf(t, agency))
    ensures agency.email == Text.Strip(old(agency.email)) && agency.name == Text.Strip(old(agency.name))
  {
    agency.stale := false;
    agency.manualStale := false;
    Save(agency);
    assert forall t :: t in db.tasks ==> unchanged(t);
    ResolveStaleTasks(db, agency);
  }

  // ---------------------------------------------------------------- queries

  /** Code-point order on names (the database's collation is not modelled). */
  predicate NameLe(x: string, y: string) {
    x == [] || (y != [] && (x[0] < y[0] || (x[0] == y[0] && NameLe(x[1..], y[1..]))))
  }

  lemma {:induction false} NameLeTotal(x: string, y: string)
    ensures NameLe(x, y) || NameLe(y, x)
  {
    if x != [] && y != [] && x[0] == y[0] {
      NameLeTotal(x[1..], y[1..]);
    }
  }

  /** Each agency's name is at most the next one's. */
  predicate SortedByName(s: seq<Agency>)
    reads (set x | x in s)`name
  {
    forall i :: 0 < i < |s| ==> NameLe(s[i - 1].name, s[i].name)
  }

  /** Insert a into a list sorted by name, before the first agency it does not follow. */
  function InsertByName(a: Agency, s: seq<Agency>): seq<Agency>
    reads a`name, (set x | x in s)`name
  {
    if s == [] then [a]
    else if NameLe(a.name, s[0].name) then [a] + s
    else [s[0]] + InsertByName(a, s[1..])
  }

  /** Inserting into a sorted list keeps it sorted; the new head is a or the old head. */
  lemma {:induction false} InsertByNameSorted(a: Agency, s: seq<Agency>)
    requires SortedByName(s)
    ensures SortedByName(InsertByName(a, s))
    ensures InsertByName(a, s) != []
    ensures InsertByName(a, s)[0] == a || (s != [] && InsertByName(a, s)[0] == s[0])
  {
    if s != [] && !NameLe(a.name, s[0].name) {
      NameLeTotal(a.name, s[0].name);
      InsertByNameSorted(a, s[1..]);
      var rest := InsertByName(a, s[1..]);
      assert NameLe(s[0].name, rest[0].name) by {
        if rest[0] != a {
          assert rest[0] == s[1];
        }
      }
    }
  }

  /** Inserting adds exactly the one agency: the result is a permutation of s and a. */
  lemma {:induction false} InsertByNamePermutes(a: Agency, s: seq<Agency>)
    ensures multiset(InsertByName(a, s)) == multiset(s) + multiset{a}
    ensures forall x :: x in InsertByName(a, s) ==> x == a || x in s
    ensures a in InsertByName(a, s) && forall x :: x in s ==> x in InsertByName(a, s)
  {
    if s != [] && !NameLe(a.name, s[0].name) {
      InsertByNamePermutes(a, s[1..]);
      assert s == [s[0]] + s[1..];
    }
  }

  /** Inserting the head of s into a sorted permutation of its tail gives a sorted permutation of s. */
  lemma InsertSortStep(s: seq<Agency>, rest: seq<Agency>)
    requires s != [] && SortedByName(rest) && multiset(rest) == multiset(s[1..])
    ensures SortedByName(InsertByName(s[0], rest))
    ensures multiset(InsertByName(s[0], rest)) == multiset(s)
    ensures forall x :: x in InsertByName(s[0], rest) ==> x in s
    ensures forall x :: x in s ==> x in InsertByName(s[0], rest)
  {
    InsertByNameSorted(s[0], rest);
    InsertByNamePermutes(s[0], rest);
    assert s == [s[0]] + s[1..];
    forall x
      ensures x in InsertByName(s[0], rest) <==> x in s
    {
      calc {
        x in InsertByName(s[0], rest);
        x in multiset(InsertByName(s[0], rest));
        x in multiset(s);
      }
    }
  }

  /** order_by('name') */
  function SortByName(s: seq<Agency>): (r: seq<Agency>)
    reads (set x | x in s)`name
    ensures SortedByName(r)
    ensures multiset(r) == multiset(s)
    ensures forall x :: x in r ==> x in s
    ensures forall x :: x in s ==> x in r
  {
    if s == [] then []
    else
      var rest := SortByName(s[1..]);
      assert s == [s[0]] + s[1..];
      InsertSortStep(s, rest);
      InsertByName(s[0], rest)
  }

  /** Approved, in the same jurisdiction, and not the agency itself. */
  predicate IsSibling(a: Agency, of: Agency)
    reads a
  {
    a.jurisdiction == of.jurisdiction && a.id != of.id && a.status == Approved
  }

  function FilterSiblings(agencies: seq<Agency>, of: Agency): (r: seq<Agency>)
    reads agencies
    ensures forall a :: a in r ==> a in agencies && IsSibling(a, of)
    ensures forall a :: a in agencies && IsSibling(a, of) ==> a in r
    ensures multiset(r) <= multiset(agencies)
  {
    if agencies == [] then []
    else
      assert agencies == [agencies[0]] + agencies[1..];
      (if IsSibling(agencies[0], of) then [agencies[0]] else []) + FilterSiblings(agencies[1..], of)
  }

  /** AgencyQuerySet.get_siblings: the approved agencies of the same jurisdiction, except this one, by name. */
  function GetSiblings(agencies: seq<Agency>, agency: Agency): (r: seq<Agency>)
    reads agencies
    ensures SortedByName(r)
    ensures forall a :: a in r ==> a in agencies && IsSibling(a, agency)
    ensures forall a :: a in agencies && IsSibling(a, agency) ==> a in r
    ensures agency !in r
    ensures multiset(r) <= multiset(agencies)
  {
    SortByName(FilterSiblings(agencies, agency))
  }

  /** The priv_from_who of every response to a request of this agency (before DISTINCT). */
  function ResponseSenders(comms: seq<Communication>, agency: Agency): (r: seq<string>)
    reads comms, set c | c in comms && c.foia != null :: c.foia
    ensures forall e :: e in r <==> exists c :: c in comms && IsResponseTo(c, agency) && e == c.privFromWho
  {
    if comms == [] then []
    else
      assert comms == [comms[0]] + comms[1..];
      (if IsResponseTo(comms[0], agency) then [comms[0].privFromWho] else []) + ResponseSenders(comms[1..], agency)
  }

  predicate IsResponseTo(c: Communication, agency: Agency)
    reads c, c.foia
  {
    c.response && c.foia != null && c.foia.agency == agency
  }

  /** SELECT DISTINCT: the first occurrence of each value, in order. */
  function DistinctValues(xs: seq<string>): (r: seq<string>)
    ensures forall x :: x in r <==> x in xs
    ensures Schema.Distinct(r)
  {
    if xs == [] then []
    else
      var rest := DistinctValues(xs[..|xs| - 1]);
      var last := xs[|xs| - 1];
      assert xs == xs[..|xs| - 1] + [last];
      if last in rest then rest else rest + [last]
  }

  /** [parseaddr(e)[1].lower() for e in emails if parseaddr(e)[1]] */
  function ParsedAddresses(emails: seq<string>, parse: string -> string): (r: seq<string>)
    ensures forall a :: a in r <==> exists e :: e in emails && parse(e) != "" && a == Text.Lower(parse(e))
  {
    if emails == [] then []
    else
      assert emails == [emails[0]] + emails[1..];
      (if parse(emails[0]) != "" then [Text.Lower(parse(emails[0]))] else []) + ParsedAddresses(emails[1..], parse)
  }

  /**
   * Agency.get_all_known_emails: the lower-cased address of every distinct sender of a
   * response to one of the agency's requests, skipping those without an address.
   * `parse` is email.utils.parseaddr's address part.
   */
  function GetAllKnownEmails(comms: seq<Communication>, agency: Agency, parse: string -> string): (r: seq<string>)
    reads comms, set c | c in comms && c.foia != null :: c.foia
  {
    ParsedAddresses(DistinctValues(ResponseSenders(comms, agency)), parse)
  }

  /** Every known email is a non-empty lower-cased sender address of a response, and every such sender is known. */
  lemma KnownEmailsAreResponseSenders(comms: seq<Communication>, agency: Agency, parse: string -> string)
    ensures forall a :: a in GetAllKnownEmails(comms, agency, parse) ==>
      a != "" && a == Text.Lower(a) &&
      exists c :: c in comms && IsResponseTo(c, agency) && a == Text.Lower(parse(c.privFromWho))
    ensures forall c :: c in comms && IsResponseTo(c, agency) && parse(c.privFromWho) != "" ==>
      Text.Lower(parse(c.privFromWho)) in GetAllKnownEmails(comms, agency, parse)
  {
    var senders := ResponseSenders(comms, agency);
    forall a | a in GetAllKnownEmails(comms, agency, parse)
      ensures a != "" && a == Text.Lower(a)
      ensures exists c :: c in comms && IsResponseTo(c, agency) && a == Text.Lower(parse(c.privFromWho))
    {
      var e :| e in DistinctValues(senders) && parse(e) != "" && a == Text.Lower(parse(e));
      assert e in senders;
      LowerIdempotent(parse(e));
    }
    forall c | c in comms && IsResponseTo(c, agency) && parse(c.privFromWho) != ""
      ensures Text.Lower(parse(c.privFromWho)) in GetAllKnownEmails(comms, agency, parse)
    {
      assert c.privFromWho in senders;
      assert c.privFromWho in DistinctValues(senders);
    }
  }

  lemma LowerIdempotent(s: string)
    ensures Text.Lower(Text.Lower(s)) == Text.Lower(s)
  {
  }
}
