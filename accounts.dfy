/**
 * src/muckrock/accounts/models.py: the monthly request quota of a user profile, the
 * embargo permission and the reconciliation of the locally stored credit card with the
 * card the payment processor reports.
 */
module Accounts {
  import opened Wrappers

  /** A DateField value; only its year and month matter to the quota. */
  datatype Date = Date(year: int, month: int, day: int)

  /** The choices of Profile.acct_type. */
  const ACCT_TYPES: set<string> := {"admin", "beta", "community", "pro"}

  /** The account types allowed to embargo requests. */
  const EMBARGO_TYPES: set<string> := {"admin", "beta", "pro"}

  // ---------------------------------------------------------------- the quota

  /** The two request counters and the date of the last monthly refresh. */
  datatype Quota = Quota(monthly: int, paid: int, updated: Date)

  /** The stored date is in another month (or year) than now. */
  predicate NeedsRefresh(updated: Date, now: Date) {
    updated.month != now.month || updated.year != now.year
  }

  /** MONTHLY_REQUESTS.get(acct_type, 0) */
  function Allowance(allowances: map<string, int>, acctType: string): (n: int)
    ensures acctType !in allowances ==> n == 0
    ensures acctType in allowances ==> n == allowances[acctType]
  {
    if acctType in allowances then allowances[acctType] else 0
  }

  /** The quota after the check at the start of get_monthly_requests. */
  function Refresh(q: Quota, acctType: string, allowances: map<string, int>, now: Date): (r: Quota)
    ensures r.paid == q.paid
    ensures NeedsRefresh(q.updated, now) ==> r.updated == now && r.monthly == Allowance(allowances, acctType)
    ensures !NeedsRefresh(q.updated, now) ==> r == q
  {
    if NeedsRefresh(q.updated, now) then Quota(Allowance(allowances, acctType), q.paid, now) else q
  }

  /** The quota and the verdict after make_request spends from an already refreshed quota. */
  function Spend(q: Quota): (Quota, bool) {
    if q.monthly > 0 then (q.(monthly := q.monthly - 1), true)
    else if q.paid > 0 then (q.(paid := q.paid - 1), true)
    else (q, false)
  }

  /** A month's allowance is never negative. */
  predicate NonNegativeAllowances(allowances: map<string, int>) {
    forall t :: t in allowances ==> allowances[t] >= 0
  }

  predicate NonNegative(q: Quota) {
    q.monthly >= 0 && q.paid >= 0
  }

  /** A refresh twice in the same month changes nothing the second time. */
  lemma RefreshIdempotent(q: Quota, acctType: string, allowances: map<string, int>, now: Date)
    ensures Refresh(Refresh(q, acctType, allowances, now), acctType, allowances, now)
         == Refresh(q, acctType, allowances, now)
    ensures !NeedsRefresh(Refresh(q, acctType, allowances, now).updated, now)
  {
  }

  /**
   * A request is granted exactly when some counter is positive; a granted request takes
   * exactly one from exactly one counter, the monthly one first; a refused one changes nothing.
   */
  lemma SpendTakesOne(q: Quota)
    ensures Spend(q).1 <==> q.monthly > 0 || q.paid > 0
    ensures Spend(q).1 ==> Spend(q).0.monthly + Spend(q).0.paid == q.monthly + q.paid - 1
    ensures q.monthly > 0 ==> Spend(q).0 == q.(monthly := q.monthly - 1)
    ensures q.monthly <= 0 && q.paid > 0 ==> Spend(q).0 == q.(paid := q.paid - 1)
    ensures !Spend(q).1 ==> Spend(q).0 == q
    ensures Spend(q).0.updated == q.updated
  {
  }

  /** Neither the refresh nor spending makes a counter negative. */
  lemma QuotaStaysNonNegative(q: Quota, acctType: string, allowances: map<string, int>, now: Date)
    requires NonNegative(q) && NonNegativeAllowances(allowances)
    ensures NonNegative(Refresh(q, acctType, allowances, now))
    ensures NonNegative(Spend(Refresh(q, acctType, allowances, now)).0)
  {
  }

  /** With a positive allowance, the first request of a new month is always granted, from the monthly counter. */
  lemma NewMonthGrantsRequest(q: Quota, acctType: string, allowances: map<string, int>, now: Date)
    requires NeedsRefresh(q.updated, now) && Allowance(allowances, acctType) > 0
    ensures Spend(Refresh(q, acctType, allowances, now)).1
    ensures Spend(Refresh(q, acctType, allowances, now)).0
         == Quota(Allowance(allowances, acctType) - 1, q.paid, now)
  {
  }

  // ---------------------------------------------------------------- the profile

  /** A locally stored card (a StripeCC row) and the card the processor reports have the same shape. */
  datatype Card = Card(last4: string, cardType: string)

  /** The StripeCC table, keyed by its unique user. */
  class CardTable {
    var cards: map<int, Card>

    constructor ()
      ensures cards == map[]
    {
      cards := map[];
    }
  }

  /** What get_cc leaves in the table, given the local card (if any) and the remote one (if any). */
  function Reconcile(local: Option<Card>, remote: Option<Card>): Option<Card> {
    if local.None? && remote.Some? then Some(Card(remote.value.last4, remote.value.cardType))
    else if local.Some? && remote.None? then None
    else if local.Some? && remote.Some?
         && (local.value.last4 != remote.value.last4 || local.value.cardType != remote.value.cardType)
    then Some(local.value.(last4 := remote.value.last4, cardType := remote.value.cardType))
    else local
  }

  /** After get_cc a local card exists exactly when a remote one does, and they agree. */
  lemma ReconcileMirrorsRemote(local: Option<Card>, remote: Option<Card>)
    ensures Reconcile(local, remote).Some? <==> remote.Some?
    ensures Reconcile(local, remote) == remote
  {
  }

  /** A card already in agreement is left as it is. */
  lemma ReconcileKeepsAgreeingCard(local: Option<Card>)
    ensures Reconcile(local, local) == local
  {
  }

  class Profile {
    const user: int
    var acctType: string
    var numRequests: int
    var monthlyRequests: int
    var dateUpdate: Date

    constructor (user: int, acctType: string, dateUpdate: Date)
      ensures this.user == user && this.acctType == acctType && this.dateUpdate == dateUpdate
      ensures numRequests == 0 && monthlyRequests == 0
    {
      this.user := user;
      this.acctType := acctType;
      this.dateUpdate := dateUpdate;
      numRequests := 0;
      monthlyRequests := 0;
    }

    function Counters(): Quota
      reads this
    {
      Quota(monthlyRequests, numRequests, dateUpdate)
    }

    /**
     * Profile.get_monthly_requests: on the first call in a new month, reset the monthly
     * counter to the account type's allowance and stamp the date; return the monthly counter.
     */
    method GetMonthlyRequests(now: Date, allowances: map<string, int>) returns (n: int)
      modifies this`monthlyRequests, this`dateUpdate
      ensures Counters() == Refresh(old(Counters()), acctType, allowances, now)
      ensures n == monthlyRequests
    {
      if dateUpdate.month != now.month || dateUpdate.year != now.year {
        dateUpdate := now;
        monthlyRequests := Allowance(allowances, acctType);
      }
      n := monthlyRequests;
    }

    /** Profile.make_request: spend one request, from this month's allowance first, then from the paid ones. */
    method MakeRequest(now: Date, allowances: map<string, int>) returns (granted: bool)
      modifies this`monthlyRequests, this`numRequests, this`dateUpdate
      ensures (Counters(), granted) == Spend(Refresh(old(Counters()), acctType, allowances, now))
    {
      var monthly := GetMonthlyRequests(now, allowances);
      if monthly > 0 {
        monthlyRequests := monthlyRequests - 1;
        return true;
      } else if numRequests > 0 {
        numRequests := numRequests - 1;
        return true;
      } else {
        return false;
      }
    }

    /**
     * Profile.get_cc: make the stored card agree with the card the processor reports
     * (`remote`, the customer's active_card): create it, delete it or update it.
     */
    method GetCc(table: CardTable, remote: Option<Card>) returns (local: Option<Card>)
      modifies table
      ensures local == Reconcile(if user in old(table.cards) then Some(old(table.cards)[user]) else None, remote)
      ensures local.Some? ==> table.cards == old(table.cards)[user := local.value]
      ensures local.None? ==> table.cards == old(table.cards) - {user}
    {
      local := if user in table.cards then Some(table.cards[user]) else None;
      if local.None? && remote.Some? {
        local := Some(Card(remote.value.last4, remote.value.cardType));
        table.cards := table.cards[user := local.value];
      } else if local.Some? && remote.None? {
        table.cards := table.cards - {user};
        local := None;
      } else if local.Some? && remote.Some?
                && (local.value.last4 != remote.value.last4 || local.value.cardType != remote.value.cardType) {
        local := Some(local.value.(last4 := remote.value.last4, cardType := remote.value.cardType));
        table.cards := table.cards[user := local.value];
      }
    }
  }

  /** Profile.can_embargo */
  predicate CanEmbargo(acctType: string) {
    acctType in EMBARGO_TYPES
  }

  /** Among the account types, only community accounts cannot embargo. */
  lemma EmbargoForAllButCommunity(acctType: string)
    requires acctType in ACCT_TYPES
    ensures CanEmbargo(acctType) <==> acctType != "community"
  {
  }
}
