/**
 * muckrock/foia/models/communication.py: looking requests up by primary key, the clean-up
 * a communication's text gets on every save, moving and cloning a communication to other
 * requests, resending it, and taking its sender as the request's contact address.
 */
module Communications {
  import opened Wrappers
  import opened Schema
  import Text

  // ---------------------------------------------------------------- requests_from_pks

  /** The argument of requests_from_pks, move and clone: one primary key or a list of them. */
  datatype PkArg = Single(pk: int) | Many(pks: seq<int>)

  /** `if not isinstance(foia_pks, list): foia_pks = [foia_pks]` */
  function PkList(arg: PkArg): (r: seq<int>)
    ensures arg.Many? ==> r == arg.pks
    ensures arg.Single? ==> r == [arg.pk]
  {
    if arg.Single? then [arg.pk] else arg.pks
  }

  /** `not foia_pks`: an empty list, or the primary key 0. */
  predicate IsFalsy(arg: PkArg) {
    arg == Many([]) || arg == Single(0)
  }

  /** The requests with the given primary keys, in the order of the keys, unknown keys skipped. */
  function Resolve(table: seq<FoiaRequest>, pks: seq<int>): (r: seq<FoiaRequest>)
    ensures |r| <= |pks|
    ensures forall f :: f in r ==> f in table && f.id in pks
    ensures forall p :: p in pks && FindFoia(table, p).Some? ==> FindFoia(table, p).value in r
  {
    if pks == [] then []
    else
      var last := pks[|pks| - 1];
      assert pks == pks[..|pks| - 1] + [last];
      Resolve(table, pks[..|pks| - 1]) + (match FindFoia(table, last) case Some(f) => [f] case None => [])
  }

  /** Resolving a concatenation resolves each part, in order. */
  lemma {:induction false} ResolveAppend(table: seq<FoiaRequest>, a: seq<int>, b: seq<int>)
    ensures Resolve(table, a + b) == Resolve(table, a) + Resolve(table, b)
    decreases |b|
  {
    if b == [] {
      assert a + b == a;
    } else {
      var n := |b| - 1;
      var init := b[..n];
      assert a + b == (a + init) + [b[n]];
      assert b == init + [b[n]];
      ResolveSnoc(table, a + init, b[n]);
      ResolveSnoc(table, init, b[n]);
      ResolveAppend(table, a, init);
    }
  }

  /** One more key adds its request, if it names one, at the end. */
  lemma ResolveSnoc(table: seq<FoiaRequest>, pks: seq<int>, pk: int)
    ensures Resolve(table, pks + [pk]) == Resolve(table, pks) + match FindFoia(table, pk) case Some(f) => [f] case None => []
  {
    assert (pks + [pk])[..|pks|] == pks;
  }

  /** Nothing resolves exactly when no key names a request. */
  lemma {:induction false} ResolveEmpty(table: seq<FoiaRequest>, pks: seq<int>)
    ensures Resolve(table, pks) == [] <==> forall p :: p in pks ==> FindFoia(table, p).None?
  {
    if Resolve(table, pks) != [] {
      var f := Resolve(table, pks)[0];
      assert f in Resolve(table, pks);
      assert FindFoia(table, f.id).Some?;
    }
  }

  /** A single key is looked up like a one-element list. */
  lemma ResolveSingle(table: seq<FoiaRequest>, pk: int)
    ensures Resolve(table, PkList(Single(pk))) == if FindFoia(table, pk).Some? then [FindFoia(table, pk).value] else []
  {
    assert [pk][..0] == [];
  }

  /** requests_from_pks */
  method RequestsFromPks(db: Db, arg: PkArg) returns (foias: seq<FoiaRequest>)
    ensures foias == Resolve(db.foias, PkList(arg))
  {
    var pks := if arg.Many? then arg.pks else [arg.pk];
    foias := [];
    var i := 0;
    while i < |pks|
      invariant 0 <= i <= |pks|
      invariant foias == Resolve(db.foias, pks[..i])
    {
      var found := FindFoia(db.foias, pks[i]);
      if found.Some? {
        foias := foias + [found.value];
      }
      assert pks[..i + 1][..i] == pks[..i];
      i := i + 1;
    }
    assert pks[..i] == pks;
  }

  // ---------------------------------------------------------------- save

  /** The longest body kept. */
  const MAX_LENGTH := 150000

  /** The code points translate() deletes: the C0 controls except tab, line feed and carriage return. */
  predicate IsControl(c: char) {
    0 <= c as int <= 8 || 11 <= c as int <= 12 || 14 <= c as int <= 31
  }

  predicate ControlFree(s: string) {
    forall i :: 0 <= i < |s| ==> !IsControl(s[i])
  }

  /** unicode(s).translate(remove_control) */
  function RemoveControl(s: string): (r: string)
    ensures |r| <= |s|
    ensures ControlFree(r)
    ensures ControlFree(s) ==> r == s
  {
    if s == [] then []
    else
      var last := s[|s| - 1];
      assert s == s[..|s| - 1] + [last];
      RemoveControl(s[..|s| - 1]) + (if IsControl(last) then [] else [last])
  }

  /** Only control characters are deleted: every other character occurs as often as before. */
  lemma {:induction false} RemoveControlKeepsOthers(s: string, c: char)
    requires !IsControl(c)
    ensures multiset(RemoveControl(s))[c] == multiset(s)[c]
    decreases |s|
  {
    if s != [] {
      var last := s[|s| - 1];
      assert s == s[..|s| - 1] + [last];
      RemoveControlKeepsOthers(s[..|s| - 1], c);
    }
  }

  /** Deleting control characters works character by character: it distributes over concatenation. */
  lemma {:induction false} RemoveControlAppend(a: string, b: string)
    ensures RemoveControl(a + b) == RemoveControl(a) + RemoveControl(b)
    decreases |b|
  {
    if b == [] {
      assert a + b == a;
    } else {
      var n := |b| - 1;
      assert (a + b)[..|a + b| - 1] == a + b[..n];
      assert b == b[..n] + [b[n]];
      RemoveControlAppend(a, b[..n]);
    }
  }

  /** One character is deleted when it is a control character and kept otherwise. */
  lemma RemoveControlOne(c: char)
    ensures RemoveControl([c]) == if IsControl(c) then [] else [c]
  {
    assert [c][..0] == [];
  }

  /** The markers after which the quoted history of some agencies' replies is cut. */
  const BOP_NAME := "Bureau of Prisons"
  const BOP_MARKER := ">>>"
  const PHOENIX_NAME := "Phoenix Police Department"
  const PHOENIX_MARKER := "________________________________"

  /** _presave_special_handling, given the name of the request's agency (None without request or agency). */
  function SpecialHandling(s: string, agencyName: Option<string>): (r: string)
    ensures |r| <= |s| && r == s[..|r|]
  {
    var s1 := if agencyName == Some(BOP_NAME) then Text.CutBefore(s, BOP_MARKER) else s;
    if agencyName == Some(PHOENIX_NAME) then Text.CutBefore(s1, PHOENIX_MARKER) else s1
  }

  /** The body FOIACommunication.save stores. */
  function Sanitized(body: string, agencyName: Option<string>): (r: string)
    ensures |r| <= MAX_LENGTH
  {
    var clean := RemoveControl(body);
    SpecialHandling(clean[..if |clean| <= MAX_LENGTH then |clean| else MAX_LENGTH], agencyName)
  }

  /** A prefix of a string without control characters has none either. */
  lemma PrefixControlFree(s: string, n: nat)
    requires ControlFree(s) && n <= |s|
    ensures ControlFree(s[..n])
  {
  }

  /**
   * A saved body has no deleted control character, is at most MAX_LENGTH long, and no longer
   * holds the cut-off marker of its agency.
   */
  lemma SanitizedProperties(body: string, agencyName: Option<string>)
    ensures ControlFree(Sanitized(body, agencyName))
    ensures agencyName == Some(BOP_NAME) ==> !Text.Contains(Sanitized(body, agencyName), BOP_MARKER)
    ensures agencyName == Some(PHOENIX_NAME) ==> !Text.Contains(Sanitized(body, agencyName), PHOENIX_MARKER)
  {
    var clean := RemoveControl(body);
    var capped := clean[..if |clean| <= MAX_LENGTH then |clean| else MAX_LENGTH];
    PrefixControlFree(clean, |capped|);
    var r := SpecialHandling(capped, agencyName);
    PrefixControlFree(capped, |r|);
    if agencyName == Some(BOP_NAME) {
      Text.CutBeforeRemovesMarker(capped, BOP_MARKER);
    } else if agencyName == Some(PHOENIX_NAME) {
      Text.CutBeforeRemovesMarker(capped, PHOENIX_MARKER);
    }
  }

  /**
   * A body that is already clean, short enough and (for the two special agencies) free of
   * the marker is saved as it is.
   */
  lemma SanitizedKeepsCleanBody(body: string, agencyName: Option<string>)
    requires ControlFree(body) && |body| <= MAX_LENGTH
    requires agencyName == Some(BOP_NAME) ==> !Text.Contains(body, BOP_MARKER)
    requires agencyName == Some(PHOENIX_NAME) ==> !Text.Contains(body, PHOENIX_MARKER)
    ensures Sanitized(body, agencyName) == body
  {
    assert body[..|body|] == body;
  }

  /** Saving a communication twice stores the same body as saving it once. */
  lemma SanitizedIdempotent(body: string, agencyName: Option<string>)
    ensures Sanitized(Sanitized(body, agencyName), agencyName) == Sanitized(body, agencyName)
  {
    SanitizedProperties(body, agencyName);
    SanitizedKeepsCleanBody(Sanitized(body, agencyName), agencyName);
  }

  /** Only the two named agencies get their bodies cut, and only at their marker. */
  lemma SpecialHandlingOnlyCuts(s: string, agencyName: Option<string>)
    ensures agencyName != Some(BOP_NAME) && agencyName != Some(PHOENIX_NAME) ==> SpecialHandling(s, agencyName) == s
    ensures agencyName == Some(BOP_NAME) && !Text.Contains(s, BOP_MARKER) ==> SpecialHandling(s, agencyName) == s
    ensures agencyName == Some(PHOENIX_NAME) && !Text.Contains(s, PHOENIX_MARKER) ==> SpecialHandling(s, agencyName) == s
    ensures agencyName == Some(BOP_NAME) && Text.Contains(s, BOP_MARKER) ==>
              SpecialHandling(s, agencyName) + BOP_MARKER == s[..|SpecialHandling(s, agencyName)| + |BOP_MARKER|]
    ensures agencyName == Some(PHOENIX_NAME) && Text.Contains(s, PHOENIX_MARKER) ==>
              SpecialHandling(s, agencyName) + PHOENIX_MARKER == s[..|SpecialHandling(s, agencyName)| + |PHOENIX_MARKER|]
    ensures agencyName == Some(BOP_NAME) ==>
              forall j :: 0 <= j < |SpecialHandling(s, agencyName)| ==> !Text.OccursAt(s, BOP_MARKER, j)
    ensures agencyName == Some(PHOENIX_NAME) ==>
              forall j :: 0 <= j < |SpecialHandling(s, agencyName)| ==> !Text.OccursAt(s, PHOENIX_MARKER, j)
  {
  }

  /** FOIACommunication.save: delete control characters, cap the length, apply the agency's cut. */
  method SaveComm(c: Communication)
    modifies c`body
    ensures c.body == Sanitized(old(c.body), AgencyName(c.foia))
  {
    c.body := RemoveControl(c.body);
    if |c.body| > MAX_LENGTH {
      c.body := c.body[..MAX_LENGTH];
    }
    assert c.body == RemoveControl(old(c.body))[..|c.body|];
    var name := AgencyName(c.foia);
    var isBop := name == Some(BOP_NAME);
    var isPhoenix := name == Some(PHOENIX_NAME);
    if isBop {
      var idx := Text.IndexOf(c.body, BOP_MARKER);
      if idx.Some? {
        c.body := c.body[..idx.value];
      }
    }
    if isPhoenix {
      var idx := Text.IndexOf(c.body, PHOENIX_MARKER);
      if idx.Some? {
        c.body := c.body[..idx.value];
      }
    }
  }

  // ---------------------------------------------------------------- clone and move

  /** What a FOIAFile row says about where it belongs. */
  datatype FileRow = FileRow(foia: FoiaRequest?, comm: Communication?, name: string)

  function Rows(files: seq<FoiaFile>): (r: seq<FileRow>)
    reads files
    ensures |r| == |files|
  {
    if files == [] then []
    else Rows(files[..|files| - 1]) + [FileRow(files[|files| - 1].foia, files[|files| - 1].comm, files[|files| - 1].name)]
  }

  lemma {:induction false} RowsAppend(a: seq<FoiaFile>, b: seq<FoiaFile>)
    ensures Rows(a + b) == Rows(a) + Rows(b)
    decreases |b|
  {
    if b == [] {
      assert a + b == a;
    } else {
      assert (a + b)[..|a + b| - 1] == a + b[..|b| - 1];
      RowsAppend(a, b[..|b| - 1]);
    }
  }

  /** self.files.all(): the files attached to a communication, in table order. */
  function FilesOf(files: seq<FoiaFile>, comm: Communication): (r: seq<FoiaFile>)
    reads (set f | f in files)`comm
    ensures forall f :: f in r ==> f in files && f.comm == comm
    ensures forall f :: f in files && f.comm == comm ==> f in r
  {
    if files == [] then []
    else
      var last := files[|files| - 1];
      assert files == files[..|files| - 1] + [last];
      FilesOf(files[..|files| - 1], comm) + (if last.comm == comm then [last] else [])
  }

  /** The names of the files whose stored data can be read: the ones clone copies. */
  function DataNames(files: seq<FoiaFile>): (r: seq<string>)
    ensures |r| <= |files|
    ensures forall n :: n in r <==> exists f :: f in files && f.hasData && f.name == n
  {
    if files == [] then []
    else
      var last := files[|files| - 1];
      assert files == files[..|files| - 1] + [last];
      DataNames(files[..|files| - 1]) + (if last.hasData then [last.name] else [])
  }

  /** The file rows a clone to `request` receives: one per readable file, in order. */
  function CloneRows(request: FoiaRequest, clone: Communication, names: seq<string>): (r: seq<FileRow>)
    ensures |r| == |names|
    ensures forall j :: 0 <= j < |names| ==> r[j] == FileRow(request, clone, names[j])
  {
    seq(|names|, j requires 0 <= j < |names| => FileRow(request, clone, names[j]))
  }

  /** The file rows all the clones receive, clone after clone. */
  function ExpectedRows(requests: seq<FoiaRequest>, clones: seq<Communication>, names: seq<string>): (r: seq<FileRow>)
    requires |requests| == |clones|
  {
    if requests == [] then []
    else
      var n := |requests| - 1;
      ExpectedRows(requests[..n], clones[..n], names) + CloneRows(requests[n], clones[n], names)
  }

  /** Every clone receives one row per readable file, so the copies number their product. */
  lemma {:induction false} ExpectedRowsCount(requests: seq<FoiaRequest>, clones: seq<Communication>, names: seq<string>)
    requires |requests| == |clones|
    ensures |ExpectedRows(requests, clones, names)| == |requests| * |names|
    decreases |requests|
  {
    if requests != [] {
      var n := |requests| - 1;
      ExpectedRowsCount(requests[..n], clones[..n], names);
      assert |requests| * |names| == n * |names| + |names|;
    }
  }

  /** `c` carries the fields of `orig` other than its body, and is attached to `request`. */
  predicate IsCopyOf(c: Communication, orig: Communication, request: FoiaRequest)
    reads c, orig
  {
    c.foia == request && c.status == orig.status && c.date == orig.date
    && c.privFromWho == orig.privFromWho && c.response == orig.response
  }

  /** `c` is a copy of `orig` attached to `request`, whose saved body is `body`. */
  predicate IsCloneOf(c: Communication, orig: Communication, request: FoiaRequest, body: string)
    reads c, orig
  {
    IsCopyOf(c, orig, request) && c.body == body
  }

  /** The names of the agencies of the requests, in order (None for a request without agency). */
  function AgencyNames(requests: seq<FoiaRequest>): (r: seq<Option<string>>)
    reads requests, set f | f in requests && f.agency != null :: f.agency
    ensures |r| == |requests|
    ensures forall i :: 0 <= i < |requests| ==> r[i] == AgencyName(requests[i])
  {
    if requests == [] then []
    else AgencyNames(requests[..|requests| - 1]) + [AgencyName(requests[|requests| - 1])]
  }

  /**
   * Each of `clones` is a copy of `orig` attached to the request at the same position, saved
   * with the original's body cut for the agency named at that position.
   */
  predicate ClonedFor(clones: seq<Communication>, orig: Communication, requests: seq<FoiaRequest>, names: seq<Option<string>>)
    reads clones, orig
  {
    |clones| == |requests| == |names|
    && forall k :: 0 <= k < |clones| ==> IsCloneOf(clones[k], orig, requests[k], Sanitized(orig.body, names[k]))
  }

  /** The new communication of one iteration of clone's loop: the original, re-attached and saved. */
  method SaveCopy(db: Db, comm: Communication, request: FoiaRequest) returns (c: Communication)
    modifies db`comms
    ensures fresh(c) && IsCloneOf(c, comm, request, Sanitized(comm.body, AgencyName(request)))
    ensures db.comms == old(db.comms) + [c]
  {
    c := new Communication(request, comm.body, comm.status, comm.date, comm.privFromWho, comm.response);
    SaveComm(c);
    db.comms := db.comms + [c];
  }

  /** file_.save() with a cleared primary key: a new row copying one file for the clone. */
  method AddFileCopy(db: Db, request: FoiaRequest, c: Communication, name: string) returns (copy: FoiaFile)
    modifies db`files
    ensures fresh(copy) && db.files == old(db.files) + [copy]
    ensures Rows([copy]) == [FileRow(request, c, name)]
  {
    copy := new FoiaFile(request, c, name, true);
    db.files := db.files + [copy];
  }

  /** The files of one iteration of clone's loop: a copy of each readable file, attached to the clone. */
  method CopyFiles(db: Db, request: FoiaRequest, c: Communication, files: seq<FoiaFile>)
    returns (ghost added: seq<FoiaFile>)
    modifies db`files
    ensures db.files == old(db.files) + added
    ensures forall f :: f in added ==> fresh(f)
    ensures Rows(added) == CloneRows(request, c, DataNames(files))
  {
    added := [];
    var j := 0;
    while j < |files|
      invariant 0 <= j <= |files|
      invariant db.files == old(db.files) + added
      invariant forall f :: f in added ==> fresh(f)
      invariant Rows(added) == CloneRows(request, c, DataNames(files[..j]))
    {
      var f := files[j];
      assert files[..j + 1] == files[..j] + [f];
      if f.hasData {
        var copy := AddFileCopy(db, request, c, f.name);
        RowsAppend(added, [copy]);
        added := added + [copy];
      }
      j := j + 1;
    }
    assert files[..j] == files;
  }

  const NO_REQUESTS := "No valid request(s) provided for cloning."
  const NO_TARGET := "Expected a request to move the communication to."

  /**
   * The first step of an iteration of clone's loop, for the request after the ones `clones`
   * were made for: a saved copy of the communication attached to it.
   */
  method CloneComm(db: Db, comm: Communication, request: FoiaRequest,
                   ghost requests: seq<FoiaRequest>, ghost names: seq<Option<string>>,
                   ghost clones: seq<Communication>, ghost comms0: seq<Communication>)
    returns (c: Communication)
    requires |clones| < |requests| == |names| && requests[|clones|] == request && names[|clones|] == AgencyName(request)
    requires ClonedFor(clones, comm, requests[..|clones|], names[..|clones|])
    requires db.comms == comms0 + clones
    modifies db`comms
    ensures fresh(c)
    ensures ClonedFor(clones + [c], comm, requests[..|clones| + 1], names[..|clones| + 1])
    ensures db.comms == comms0 + (clones + [c])
  {
    c := SaveCopy(db, comm, request);
    ClonedForStep(requests, names, clones, c, comm);
  }

  /**
   * The second step: copies of the readable files, attached to the new clone `c`. The file
   * rows added so far are those of the clones before it.
   */
  method CloneFiles(db: Db, request: FoiaRequest, c: Communication, files: seq<FoiaFile>,
                    ghost requests: seq<FoiaRequest>, ghost clones: seq<Communication>,
                    ghost files0: seq<FoiaFile>, ghost added: seq<FoiaFile>, ghost comm: Communication, ghost names: seq<Option<string>>)
    returns (ghost added': seq<FoiaFile>)
    requires |clones| < |requests| && requests[|clones|] == request
    requires ClonedFor(clones + [c], comm, requests[..|clones| + 1], names)
    requires db.files == files0 + added
    requires Rows(added) == ExpectedRows(requests[..|clones|], clones, DataNames(files))
    modifies db`files
    ensures ClonedFor(clones + [c], comm, requests[..|clones| + 1], names)
    ensures db.files == files0 + added'
    ensures Rows(added') == ExpectedRows(requests[..|clones| + 1], clones + [c], DataNames(files))
  {
    ghost var copies := CopyFiles(db, request, c, files);
    assert (files0 + added) + copies == files0 + (added + copies);
    ExpectedRowsStep(requests, clones, c, DataNames(files), added, copies);
    added' := added + copies;
  }

  /**
   * One iteration of clone's loop, for the request after the ones `clones` were made for:
   * a saved copy of the communication, then copies of its readable files.
   */
  method CloneOne(db: Db, comm: Communication, request: FoiaRequest, files: seq<FoiaFile>,
                  ghost requests: seq<FoiaRequest>, ghost names: seq<Option<string>>, ghost clones: seq<Communication>,
                  ghost comms0: seq<Communication>, ghost files0: seq<FoiaFile>, ghost added: seq<FoiaFile>)
    returns (c: Communication, ghost added': seq<FoiaFile>)
    requires |clones| < |requests| == |names| && requests[|clones|] == request && names[|clones|] == AgencyName(request)
    requires ClonedFor(clones, comm, requests[..|clones|], names[..|clones|])
    requires db.comms == comms0 + clones
    requires db.files == files0 + added
    requires Rows(added) == ExpectedRows(requests[..|clones|], clones, DataNames(files))
    modifies db`comms, db`files
    ensures fresh(c)
    ensures ClonedFor(clones + [c], comm, requests[..|clones| + 1], names[..|clones| + 1])
    ensures db.comms == comms0 + (clones + [c])
    ensures db.files == files0 + added'
    ensures Rows(added') == ExpectedRows(requests[..|clones| + 1], clones + [c], DataNames(files))
  {
    c := CloneComm(db, comm, request, requests, names, clones, comms0);
    added' := CloneFiles(db, request, c, files, requests, clones, files0, added, comm, names[..|clones| + 1]);
  }

  /** The clones made so far, followed by a saved copy for the next request. */
  lemma ClonedForStep(requests: seq<FoiaRequest>, names: seq<Option<string>>, clones: seq<Communication>,
                      c: Communication, comm: Communication)
    requires |clones| < |requests| == |names|
    requires ClonedFor(clones, comm, requests[..|clones|], names[..|clones|])
    requires IsCloneOf(c, comm, requests[|clones|], Sanitized(comm.body, names[|clones|]))
    ensures ClonedFor(clones + [c], comm, requests[..|clones| + 1], names[..|clones| + 1])
  {
    var k := |clones|;
    forall i | 0 <= i < k + 1
      ensures IsCloneOf((clones + [c])[i], comm, requests[..k + 1][i], Sanitized(comm.body, names[..k + 1][i]))
    {
      if i < k {
        assert (clones + [c])[i] == clones[i] && requests[..k + 1][i] == requests[..k][i] && names[..k + 1][i] == names[..k][i];
      }
    }
  }

  /** The rows of the files copied for the first k + 1 clones. */
  lemma ExpectedRowsStep(requests: seq<FoiaRequest>, clones: seq<Communication>, c: Communication, names: seq<string>,
                         added: seq<FoiaFile>, copies: seq<FoiaFile>)
    requires |clones| < |requests|
    requires Rows(added) == ExpectedRows(requests[..|clones|], clones, names)
    requires Rows(copies) == CloneRows(requests[|clones|], c, names)
    ensures Rows(added + copies) == ExpectedRows(requests[..|clones| + 1], clones + [c], names)
  {
    ExpectedRowsUnfold(requests, clones, c, names);
    RowsAppend(added, copies);
  }

  lemma ExpectedRowsUnfold(requests: seq<FoiaRequest>, clones: seq<Communication>, c: Communication, names: seq<string>)
    requires |clones| < |requests|
    ensures ExpectedRows(requests[..|clones| + 1], clones + [c], names)
         == ExpectedRows(requests[..|clones|], clones, names) + CloneRows(requests[|clones|], c, names)
  {
    var k := |clones|;
    assert requests[..k + 1][..k] == requests[..k];
    assert (clones + [c])[..k] == clones;
  }

  /**
   * Clone's loop: one copy per request, in order, each saved with the original body cut for
   * its request's agency.
   */
  method CloneEach(db: Db, comm: Communication, requests: seq<FoiaRequest>, files: seq<FoiaFile>)
    returns (clones: seq<Communication>, ghost added: seq<FoiaFile>)
    modifies db`comms, db`files
    ensures ClonedFor(clones, comm, requests, AgencyNames(requests)) && db.comms == old(db.comms) + clones
    ensures forall i :: 0 <= i < |clones| ==> fresh(clones[i])
    ensures db.files == old(db.files) + added
    ensures Rows(added) == ExpectedRows(requests, clones, DataNames(files))
  {
    clones, added := [], [];
    ghost var names := AgencyNames(requests);
    var k := 0;
    while k < |requests|
      invariant 0 <= k <= |requests| && |clones| == k
      invariant forall i :: 0 <= i < k ==> fresh(clones[i])
      invariant ClonedFor(clones, comm, requests[..k], names[..k])
      invariant db.comms == old(db.comms) + clones
      invariant db.files == old(db.files) + added
      invariant Rows(added) == ExpectedRows(requests[..k], clones, DataNames(files))
    {
      assert names[k] == AgencyName(requests[k]);
      var c;
      c, added := CloneOne(db, comm, requests[k], files, requests, names, clones, old(db.comms), old(db.files), added);
      clones := clones + [c];
      k := k + 1;
    }
    assert requests[..k] == requests && names[..k] == names;
    assert names == AgencyNames(requests);
  }

  /**
   * FOIACommunication.clone: one saved copy of the communication per request the keys
   * resolve to, each with copies of the communication's readable files.
   */
  method Clone(db: Db, comm: Communication, arg: PkArg) returns (r: Result<seq<Communication>>)
    modifies db`comms, db`files
    ensures unchanged(comm) && forall f :: f in old(db.files) ==> unchanged(f)
    ensures Resolve(db.foias, PkList(arg)) == [] ==>
              r == Err(ValueError(NO_REQUESTS)) && db.comms == old(db.comms) && db.files == old(db.files)
    ensures Resolve(db.foias, PkList(arg)) != [] ==> r.Ok?
    ensures r.Ok? ==> ClonedFor(r.value, comm, Resolve(db.foias, PkList(arg)), AgencyNames(Resolve(db.foias, PkList(arg))))
    ensures r.Ok? ==> db.comms == old(db.comms) + r.value
    ensures r.Ok? ==> forall k :: 0 <= k < |r.value| ==> fresh(r.value[k])
    ensures r.Ok? ==> |old(db.files)| <= |db.files| && db.files[..|old(db.files)|] == old(db.files)
    ensures r.Ok? ==>
              Rows(db.files[|old(db.files)|..]) == ExpectedRows(Resolve(db.foias, PkList(arg)), r.value, DataNames(old(FilesOf(db.files, comm))))
  {
    var requests := RequestsFromPks(db, arg);
    if requests == [] {
      return Err(ValueError(NO_REQUESTS));
    }
    var files := FilesOf(db.files, comm);
    var clones, added := CloneEach(db, comm, requests, files);
    assert db.files[|old(db.files)|..] == added;
    assert Resolve(db.foias, PkList(arg)) == requests;
    assert old(FilesOf(db.files, comm)) == files;
    return Ok(clones);
  }

  /** The files of the moved communication follow it to its new request; the others keep theirs. */
  method MoveFiles(db: Db, comm: Communication, target: FoiaRequest)
    modifies (set f | f in db.files)`foia
    ensures forall f :: f in db.files ==> f.foia == (if f.comm == comm then target else old(f.foia))
  {
    var i := 0;
    while i < |db.files|
      invariant 0 <= i <= |db.files|
      invariant forall f :: f in db.files ==> f.foia == old(f.foia) || (f.comm == comm && f.foia == target)
      invariant forall k :: 0 <= k < i ==> db.files[k].comm == comm ==> db.files[k].foia == target
    {
      var f := db.files[i];
      if f.comm == comm {
        assert f in db.files;
        f.foia := target;
      }
      i := i + 1;
    }
  }

  /** The first part of move: attach the communication and its files to `target`, and save it. */
  method Reattach(db: Db, comm: Communication, target: FoiaRequest)
    modifies comm`foia, comm`body, (set f | f in db.files)`foia
    ensures comm.foia == target && comm.body == Sanitized(old(comm.body), AgencyName(target))
    ensures forall f :: f in db.files ==> f.foia == if f.comm == comm then target else old(f.foia)
  {
    comm.foia := target;
    MoveFiles(db, comm, target);
    SaveComm(comm);
  }

  /**
   * FOIACommunication.move: attach the communication and its files to the first request,
   * save it, and clone it to the requests of the other keys. The moved communication comes
   * first in the result. A failing clone leaves the move done.
   */
  method Move(db: Db, comm: Communication, arg: PkArg) returns (r: Result<seq<Communication>>)
    modifies comm`foia, comm`body, db`comms, db`files, (set f | f in db.files)`foia
    ensures IsFalsy(arg) ==> r == Err(ValueError(NO_TARGET))
    ensures !IsFalsy(arg) && FindFoia(db.foias, PkList(arg)[0]).None? ==> r == Err(Http404)
    ensures r == Err(ValueError(NO_TARGET)) || r == Err(Http404) ==>
              unchanged(comm) && db.comms == old(db.comms) && db.files == old(db.files)
              && forall f :: f in db.files ==> unchanged(f)
    ensures !IsFalsy(arg) && FindFoia(db.foias, PkList(arg)[0]).Some? ==>
              var target := FindFoia(db.foias, PkList(arg)[0]).value;
              comm.foia == target && comm.body == Sanitized(old(comm.body), AgencyName(target))
              && (forall f :: f in old(db.files) ==> f.foia == if f.comm == comm then target else old(f.foia))
              && (|PkList(arg)[1..]| == 0 || Resolve(db.foias, PkList(arg)[1..]) == [] ==> db.comms == old(db.comms) && db.files == old(db.files))
              && (|PkList(arg)[1..]| == 0 ==> r == Ok([comm]))
              && (|PkList(arg)[1..]| > 0 && Resolve(db.foias, PkList(arg)[1..]) == [] ==> r == Err(ValueError(NO_REQUESTS)))
              && (|PkList(arg)[1..]| > 0 && Resolve(db.foias, PkList(arg)[1..]) != [] ==>
                    r.Ok? && |r.value| == |Resolve(db.foias, PkList(arg)[1..])| + 1 && r.value[0] == comm
                    && ClonedFor(r.value[1..], comm, Resolve(db.foias, PkList(arg)[1..]), AgencyNames(Resolve(db.foias, PkList(arg)[1..])))
                    && db.comms == old(db.comms) + r.value[1..]
                    && (forall k :: 1 <= k < |r.value| ==> fresh(r.value[k]))
                    && |old(db.files)| <= |db.files| && db.files[..|old(db.files)|] == old(db.files)
                    && Rows(db.files[|old(db.files)|..]) == ExpectedRows(Resolve(db.foias, PkList(arg)[1..]), r.value[1..], DataNames(old(FilesOf(db.files, comm)))))
  {
    if arg == Many([]) || arg == Single(0) {
      return Err(ValueError(NO_TARGET));
    }
    var pks := if arg.Many? then arg.pks else [arg.pk];
    var found := FindFoia(db.foias, pks[0]);
    if found.None? {
      return Err(Http404);
    }
    assert PkList(arg)[1..] == pks[1..];
    r := MoveTo(db, comm, found.value, pks[1..]);
  }

  /** Move once the target is found: attach to it, then clone to the requests of the keys `rest`. */
  method MoveTo(db: Db, comm: Communication, target: FoiaRequest, rest: seq<int>) returns (r: Result<seq<Communication>>)
    modifies comm`foia, comm`body, db`comms, db`files, (set f | f in db.files)`foia
    ensures comm.foia == target && comm.body == Sanitized(old(comm.body), AgencyName(target))
            && (forall f :: f in old(db.files) ==> f.foia == if f.comm == comm then target else old(f.foia))
            && (|rest| == 0 || Resolve(db.foias, rest) == [] ==> db.comms == old(db.comms) && db.files == old(db.files))
            && (|rest| == 0 ==> r == Ok([comm]))
            && (|rest| > 0 && Resolve(db.foias, rest) == [] ==> r == Err(ValueError(NO_REQUESTS)))
            && (|rest| > 0 && Resolve(db.foias, rest) != [] ==>
                  r.Ok? && |r.value| == |Resolve(db.foias, rest)| + 1 && r.value[0] == comm
                  && ClonedFor(r.value[1..], comm, Resolve(db.foias, rest), AgencyNames(Resolve(db.foias, rest)))
                  && db.comms == old(db.comms) + r.value[1..]
                  && (forall k :: 1 <= k < |r.value| ==> fresh(r.value[k]))
                  && |old(db.files)| <= |db.files| && db.files[..|old(db.files)|] == old(db.files)
                  && Rows(db.files[|old(db.files)|..]) == ExpectedRows(Resolve(db.foias, rest), r.value[1..], DataNames(old(FilesOf(db.files, comm)))))
  {
    ghost var files := FilesOf(db.files, comm);
    Reattach(db, comm, target);
    label Moved:
    assert FilesOf(db.files, comm) == files;
    ghost var agency := target.agency;
    ghost var name := AgencyName(target);
    if |rest| > 0 {
      r := CloneRest(db, comm, rest);
      assert target.agency == agency;
      assert agency != null ==> agency.name == old@Moved(agency.name);
      assert AgencyName(target) == name;
      return;
    }
    return Ok([comm]);
  }

  /** The second part of move: clone the moved communication to the requests of the other keys. */
  method CloneRest(db: Db, comm: Communication, pks: seq<int>) returns (r: Result<seq<Communication>>)
    modifies db`comms, db`files
    ensures unchanged(comm) && forall f :: f in old(db.files) ==> unchanged(f)
    ensures Resolve(db.foias, pks) == [] ==>
              r == Err(ValueError(NO_REQUESTS)) && db.comms == old(db.comms) && db.files == old(db.files)
    ensures Resolve(db.foias, pks) != [] ==>
              var requests := Resolve(db.foias, pks);
              r.Ok? && |r.value| == |requests| + 1 && r.value[0] == comm
              && ClonedFor(r.value[1..], comm, requests, AgencyNames(requests))
              && db.comms == old(db.comms) + r.value[1..]
              && (forall k :: 1 <= k < |r.value| ==> fresh(r.value[k]))
              && |old(db.files)| <= |db.files| && db.files[..|old(db.files)|] == old(db.files)
              && Rows(db.files[|old(db.files)|..]) == ExpectedRows(requests, r.value[1..], DataNames(old(FilesOf(db.files, comm))))
  {
    var cloned := Clone(db, comm, Many(pks));
    if cloned.Err? {
      return Err(cloned.error);
    }
    r := Ok([comm] + cloned.value);
    assert r.value[1..] == cloned.value;
  }

  // ---------------------------------------------------------------- resend and the sender

  const ORPHAN_RESEND := "This communication has no FOIA to submit."
  const INVALID_SENDER := "Communication was not sent from a valid email."
  const ORPHAN_CONTACT := "Communication is an orphan and has no associated request."

  /** `if email_address:` */
  predicate Truthy(address: Option<string>) {
    address.Some? && address.value != ""
  }

  /**
   * FOIACommunication.resend: stamp the communication with the current time and save it,
   * then submit its request again, by email to `address` when one is given (validated by
   * `valid`, Django's validate_email), by snail mail otherwise.
   */
  method Resend(comm: Communication, address: Option<string>, now: Time, valid: string -> bool)
    returns (raised: Option<Exception>)
    modifies comm`date, comm`body
    modifies (if comm.foia != null then {comm.foia} else {})`email
    modifies (if comm.foia != null then {comm.foia} else {})`submissions
    ensures comm.foia == null ==> raised == Some(ValueError(ORPHAN_RESEND)) && unchanged(comm)
    ensures comm.foia != null ==> comm.date == now && comm.body == Sanitized(old(comm.body), AgencyName(comm.foia))
    ensures comm.foia != null && Truthy(address) && !valid(address.value) ==>
              raised == Some(ValidationError) && unchanged(comm.foia)
    ensures comm.foia != null && Truthy(address) && valid(address.value) ==>
              raised == None && comm.foia.email == address.value
              && comm.foia.submissions == old(comm.foia.submissions) + [false]
    ensures comm.foia != null && !Truthy(address) ==>
              raised == None && comm.foia.email == old(comm.foia.email)
              && comm.foia.submissions == old(comm.foia.submissions) + [true]
  {
    var foia := comm.foia;
    if foia == null {
      return Some(ValueError(ORPHAN_RESEND));
    }
    var snail := false;
    comm.date := now;
    SaveComm(comm);
    if address.Some? && address.value != "" {
      if !valid(address.value) {
        return Some(ValidationError);
      }
      foia.email := address.value;
    } else {
      snail := true;
    }
    foia.submissions := foia.submissions + [snail];
    return None;
  }

  /** FOIACommunication.get_sender_email: the address part of priv_from_who, when it is a valid address. */
  function GetSenderEmail(comm: Communication, parse: string -> string, valid: string -> bool): (r: Option<string>)
    reads comm
    ensures r.Some? <==> valid(parse(comm.privFromWho))
    ensures r.Some? ==> r.value == parse(comm.privFromWho)
  {
    var address := parse(comm.privFromWho);
    if valid(address) then Some(address) else None
  }

  /** validate_email rejects the empty string, so `if not sender_email` only ever sees None. */
  lemma SenderEmailNeverEmpty(comm: Communication, parse: string -> string, valid: string -> bool)
    requires !valid("")
    ensures !Truthy(GetSenderEmail(comm, parse, valid)) <==> GetSenderEmail(comm, parse, valid).None?
  {
  }

  /** FOIACommunication.make_sender_primary_contact: make the sender's address the request's email. */
  method MakeSenderPrimaryContact(comm: Communication, parse: string -> string, valid: string -> bool)
    returns (raised: Option<Exception>)
    modifies (if comm.foia != null then {comm.foia} else {})`email
    ensures !Truthy(GetSenderEmail(comm, parse, valid)) ==> raised == Some(ValueError(INVALID_SENDER))
    ensures Truthy(GetSenderEmail(comm, parse, valid)) && comm.foia == null ==> raised == Some(ValueError(ORPHAN_CONTACT))
    ensures Truthy(GetSenderEmail(comm, parse, valid)) && comm.foia != null ==>
              raised == None && comm.foia.email == GetSenderEmail(comm, parse, valid).value
    ensures raised.Some? ==> comm.foia == null || unchanged(comm.foia)
  {
    var sender := GetSenderEmail(comm, parse, valid);
    if sender.None? || sender.value == "" {
      return Some(ValueError(INVALID_SENDER));
    }
    if comm.foia == null {
      return Some(ValueError(ORPHAN_CONTACT));
    }
    comm.foia.email := sender.value;
    return None;
  }
}
