/** The whole of a table's login: the rate limiter first, then the PIN, then the session. */
module TableAuthentication {
  import opened Wrappers
  import opened LimiterSpec
  import opened RateLimiter
  import opened UnitOfWork
  import LoginGuard
  import Invariants
  import Services
  import Steps

  datatype LoginError = RateLimited | Refused(error: Steps.Error)

  function TableKey(store: Id, no: string): Key {
    "TABLE:" + store + ":" + no
  }

  function AdminKey(store: Id, username: string): Key {
    "ADMIN:" + store + ":" + username
  }

  /** The first store's name goes on, after a colon, as the second's table number begins. */
  ghost predicate Overlap(store: Id, no: string, longer: Id, rest: string) {
    exists m: string :: longer == store + (":" + m) && no == m + (":" + rest)
  }

  /**
    Tables of one store never share a key, and no table shares one with an admin; tables of two stores
    do exactly if colons in their names make it so.
   */
  lemma SameKeyIff(store: Id, no: string, store': Id, no': string)
    ensures TableKey(store, no) == TableKey(store', no') <==>
              (store == store' && no == no') || Overlap(store, no, store', no') || Overlap(store', no', store, no)
    ensures TableKey(store, no) != AdminKey(store', no')
  {
    assert TableKey(store, no)[0] == 'T' && AdminKey(store', no')[0] == 'A';
    assert TableKey(store, no) == "TABLE:" + (store + (":" + no));
    assert TableKey(store', no') == "TABLE:" + (store' + (":" + no'));
    assert TableKey(store, no)[6..] == store + (":" + no) && TableKey(store', no')[6..] == store' + (":" + no');
    hide TableKey, AdminKey;
    if store + (":" + no) == store' + (":" + no') {
      SplitTwice(store, no, store', no');
    }
    if Overlap(store, no, store', no') { Rejoin(store, no, store', no'); }
    if Overlap(store', no', store, no) { Rejoin(store', no', store, no); }
  }

  lemma SplitTwice(store: Id, no: string, store': Id, no': string)
    requires store + (":" + no) == store' + (":" + no')
    ensures (store == store' && no == no') || Overlap(store, no, store', no') || Overlap(store', no', store, no)
  {
    if |store| < |store'| {
      Longer(store, no, store', no');
    } else if |store'| < |store| {
      Longer(store', no', store, no);
    } else {
      var key := store + (":" + no);
      assert key[..|store|] == store && key[..|store|] == store';
      assert key[|store| + 1..] == no && key[|store| + 1..] == no';
    }
  }

  lemma Longer(store: Id, no: string, longer: Id, rest: string)
    requires store + (":" + no) == longer + (":" + rest) && |store| < |longer|
    ensures Overlap(store, no, longer, rest)
  {
    var key := store + (":" + no);
    var m := longer[|store| + 1..];
    assert longer == key[..|longer|];
    assert longer == store + (":" + m);
    assert no == key[|store| + 1..] == m + (":" + rest);
  }

  lemma Rejoin(store: Id, no: string, longer: Id, rest: string)
    requires Overlap(store, no, longer, rest)
    ensures store + (":" + no) == longer + (":" + rest)
  {
    var m: string :| longer == store + (":" + m) && no == m + (":" + rest);
    assert store + (":" + (m + (":" + rest))) == (store + (":" + m)) + (":" + rest);
  }

  /**
    A locked key learns nothing, and nothing is looked up for it. Otherwise the login runs as its
    step says, a wrong PIN counts as a failure, and a right one clears the key, even if the session
    turns out to have expired.
   */
  method AuthenticateTable(limiter: Limiter, work: Work, r: Steps.LoginRequest, askedAt: real, verifiedAt: real)
    returns (res: Result<Id, LoginError>)
    requires limiter.Valid() && limiter.clock <= askedAt <= verifiedAt
    requires LoginGuard.Disciplined(limiter.policy, limiter.history, limiter.clock)
    requires work.pending == [] && Invariants.Inv(work.rows) && Steps.Admissible(work.rows, Steps.Login(r))
    modifies limiter, work
    ensures limiter.Valid() && LoginGuard.Disciplined(limiter.policy, limiter.history, limiter.clock)
    ensures work.pending == [] && Invariants.Inv(work.rows) && work.agreed == old(work.agreed)
    ensures var (h, key) := (old(limiter.history), TableKey(r.store, r.no));
            if LockedOut(limiter.policy, h, key, askedAt) then
              res == Failure(RateLimited) && work.rows == old(work.rows) && limiter.history == h + [Probed(key, askedAt, true)]
            else
              var (rows, outcome) := Steps.LoginTable(old(work.rows), r);
              && work.rows == rows
              && res == (match outcome case Success(id) => Success(id) case Failure(e) => Failure(Refused(e)))
              && if Steps.PinAccepted(old(work.rows), r)
                 then limiter.history == h + [Probed(key, askedAt, false)] + [Cleared(key)]
                 else h + [Probed(key, askedAt, false)] + [Failed(key, verifiedAt)] <= limiter.history
  {
    hide Limiter.Valid, LoginGuard.Disciplined, LockedOut, Invariants.Inv, Steps.Admissible, Rows.FindTable;
    ghost var h := limiter.history;
    var key := TableKey(r.store, r.no);
    var ok := Steps.PinAccepted(work.View(), r);
    var outcome := LoginGuard.Authenticate(limiter, key, askedAt, ok, verifiedAt);
    match outcome {
      case RateLimited => return Failure(LoginError.RateLimited);
      case AuthError =>
        ghost var failed := h + [Probed(key, askedAt, false)] + [Failed(key, verifiedAt)];
        if victim :| limiter.history == failed + [Evicted(victim)] { assert failed <= limiter.history; }
        return Failure(Refused(Steps.Unauthorized));
      case Granted =>
        var session := Services.LoginTable(work, r);
        if session.Success? { return Success(session.value); }
        return Failure(Refused(session.error));
    }
  }
}
