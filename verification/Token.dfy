/** The example token contract (sdk/rust/examples/erc20/src/lib.rs) against EIP-20. Arithmetic is
    that of the release build, modulo 2^64. The caller of a call is a parameter; a call that
    aborts stores nothing. */
module Token {
  import opened Common

  type Account = string

  datatype Event =
    | Transferred(from: Account, to: Account, value: u64)
    | Approved(owner: Account, spender: Account, value: u64)

  datatype State = State(
    totalSupply: u64, balances: map<Account, u64>, allowances: map<Account, map<Account, u64>>, events: seq<Event>)

  datatype Call =
    | Initialize
    | Mint(to: Account, amount: u64)
    | Burn(from: Account, amount: u64)
    | Transfer(to: Account, amount: u64)
    | TransferFrom(from: Account, to: Account, amount: u64)
    | Approve(spender: Account, amount: u64)

  datatype Reply = Done | Yes | No | Aborted

  function Add(a: u64, b: u64): u64
  {
    (a + b) % U64
  }

  function Sub(a: u64, b: u64): u64
  {
    (a + U64 - b) % U64
  }

  function Balance(s: State, a: Account): u64
  {
    if a in s.balances then s.balances[a] else 0
  }

  function Allowance(s: State, owner: Account, spender: Account): u64
  {
    if owner in s.allowances && spender in s.allowances[owner] then s.allowances[owner][spender] else 0
  }

  function ReplyTo(s: State, caller: Account, call: Call): Reply
  {
    match call
    case Burn(from, amount) => if caller != from || Balance(s, from) < amount then Aborted else Done
    case Transfer(to, amount) => if caller == to || Balance(s, caller) >= amount then Yes else No
    case TransferFrom(from, _, amount) =>
      if Allowance(s, from, caller) >= amount && Balance(s, from) >= amount then Yes else No
    case Approve(_, _) => Yes
    case _ => Done
  }

  /** The stored state and the event log after a call. In transferFrom both balances are read
      before either is written. */
  function After(s: State, caller: Account, call: Call): State
  {
    if ReplyTo(s, caller, call).No? || ReplyTo(s, caller, call).Aborted? then s
    else match call
      case Initialize => State(0, map[], map[], s.events)
      case Mint(to, amount) =>
        State(Add(s.totalSupply, amount), s.balances[to := Add(Balance(s, to), amount)], s.allowances,
              s.events + [Transferred("", to, amount)])
      case Burn(from, amount) =>
        State(Sub(s.totalSupply, amount), s.balances[from := Sub(Balance(s, from), amount)], s.allowances,
              s.events + [Transferred(from, "", amount)])
      case Transfer(to, amount) =>
        if caller == to then s
        else s.(balances := Moved(s, caller, to, amount), events := s.events + [Transferred(caller, to, amount)])
      case TransferFrom(from, to, amount) =>
        s.(balances := Moved(s, from, to, amount), allowances := Spent(s, from, caller, amount),
           events := s.events + [Transferred(from, to, amount)])
      case Approve(spender, amount) =>
        var spenders := if caller in s.allowances then s.allowances[caller] else map[];
        s.(allowances := s.allowances[caller := spenders[spender := amount]],
           events := s.events + [Approved(caller, spender, amount)])
  }

  function Moved(s: State, from: Account, to: Account, amount: u64): map<Account, u64>
  {
    s.balances[from := Sub(Balance(s, from), amount)][to := Add(Balance(s, to), amount)]
  }

  function Spent(s: State, owner: Account, spender: Account, amount: u64): map<Account, map<Account, u64>>
  {
    if owner !in s.allowances then s.allowances
    else
      var spenders: map<Account, u64> := s.allowances[owner][spender := Sub(Allowance(s, owner, spender), amount)];
      s.allowances[owner := spenders]
  }

  // ---------- The contract ----------

  class TokenState {
    var name: string
    var symbol: string
    var decimals: int
    var totalSupply: u64
    var balances: map<Account, u64>
    var allowances: map<Account, map<Account, u64>>
    /** The host's event log. */
    var events: seq<Event>

    ghost function Value(): State
      reads this
    {
      State(totalSupply, balances, allowances, events)
    }

    constructor ()
      ensures Value() == State(0, map[], map[], [])
    {
      name, symbol, decimals := "", "", 0;
      totalSupply := 0;
      balances := map[];
      allowances := map[];
      events := [];
    }

    function BalanceOf(account: Account): u64
      reads this
    {
      if account in balances then balances[account] else 0
    }

    function AllowanceOf(owner: Account, spender: Account): u64
      reads this
    {
      if owner in allowances && spender in allowances[owner] then allowances[owner][spender] else 0
    }

    method Initialize(caller: Account)
      modifies this
      ensures Value() == After(old(Value()), caller, Call.Initialize)
      ensures name == "Example Token" && symbol == "EXT" && decimals == 18
      ensures totalSupply == 0 && events == old(events)
      ensures (forall a :: BalanceOf(a) == 0) && forall a, b :: AllowanceOf(a, b) == 0
    {
      name, symbol, decimals := "Example Token", "EXT", 18;
      totalSupply := 0;
      balances := map[];
      allowances := map[];
    }

    method Mint(caller: Account, to: Account, amount: u64)
      modifies `totalSupply, `balances, `events
      ensures Value() == After(old(Value()), caller, Call.Mint(to, amount))
      ensures totalSupply == (old(totalSupply) + amount) % U64
      ensures forall a :: BalanceOf(a) == if a == to then (old(BalanceOf(a)) + amount) % U64 else old(BalanceOf(a))
      ensures events == old(events) + [Transferred("", to, amount)]
    {
      totalSupply := Add(totalSupply, amount);
      var currentBalance := BalanceOf(to);
      balances := balances[to := Add(currentBalance, amount)];
      events := events + [Transferred("", to, amount)];
    }

    method Burn(caller: Account, from: Account, amount: u64) returns (aborted: bool)
      modifies `totalSupply, `balances, `events
      ensures aborted <==> ReplyTo(old(Value()), caller, Call.Burn(from, amount)) == Aborted
      ensures Value() == After(old(Value()), caller, Call.Burn(from, amount))
      ensures aborted <==> caller != from || old(BalanceOf(from)) < amount
      ensures aborted ==> Value() == old(Value())
      ensures !aborted ==>
        totalSupply == (old(totalSupply) + U64 - amount) % U64
        && (forall a :: BalanceOf(a) == old(BalanceOf(a)) - if a == from then amount else 0)
        && events == old(events) + [Transferred(from, "", amount)]
    {
      if caller != from {
        return true;
      }
      var currentBalance := BalanceOf(from);
      if currentBalance < amount {
        return true;
      }
      totalSupply := Sub(totalSupply, amount);
      balances := balances[from := Sub(currentBalance, amount)];
      events := events + [Transferred(from, "", amount)];
      aborted := false;
    }

    /** Both balances are read before either is written. */
    method Move(from: Account, to: Account, amount: u64)
      requires BalanceOf(from) >= amount
      modifies `balances
      ensures balances == Moved(old(Value()), from, to, amount)
      ensures forall a ::
        BalanceOf(a) == if a == to then (old(BalanceOf(a)) + amount) % U64
                        else if a == from then old(BalanceOf(a)) - amount else old(BalanceOf(a))
    {
      var fromBalance := BalanceOf(from);
      var toBalance := BalanceOf(to);
      balances := balances[from := Sub(fromBalance, amount)];
      balances := balances[to := Add(toBalance, amount)];
    }

    method Spend(owner: Account, spender: Account, amount: u64)
      requires AllowanceOf(owner, spender) >= amount
      modifies `allowances
      ensures allowances == Spent(old(Value()), owner, spender, amount)
      ensures forall a, b ::
        AllowanceOf(a, b) == old(AllowanceOf(a, b)) - if a == owner && b == spender then amount else 0
    {
      var allowed := AllowanceOf(owner, spender);
      if owner in allowances {
        var spenders: map<Account, u64> := allowances[owner][spender := Sub(allowed, amount)];
        allowances := allowances[owner := spenders];
      }
    }

    method Transfer(caller: Account, to: Account, amount: u64) returns (ok: bool)
      modifies `balances, `events
      ensures ok <==> ReplyTo(old(Value()), caller, Call.Transfer(to, amount)) == Yes
      ensures Value() == After(old(Value()), caller, Call.Transfer(to, amount))
      ensures ok <==> caller == to || old(BalanceOf(caller)) >= amount
      ensures !ok || caller == to ==> Value() == old(Value())
      ensures ok && caller != to ==>
        (forall a :: BalanceOf(a) ==
                     if a == caller then old(BalanceOf(a)) - amount
                     else if a == to then (old(BalanceOf(a)) + amount) % U64 else old(BalanceOf(a)))
        && events == old(events) + [Transferred(caller, to, amount)]
    {
      hide Moved;
      if caller == to {
        return true;
      }
      var fromBalance := BalanceOf(caller);
      if fromBalance < amount {
        return false;
      }
      Move(caller, to, amount);
      events := events + [Transferred(caller, to, amount)];
      ok := true;
    }

    method TransferFrom(caller: Account, from: Account, to: Account, amount: u64) returns (ok: bool)
      modifies `balances, `allowances, `events
      ensures ok <==> ReplyTo(old(Value()), caller, Call.TransferFrom(from, to, amount)) == Yes
      ensures Value() == After(old(Value()), caller, Call.TransferFrom(from, to, amount))
      ensures ok <==> old(AllowanceOf(from, caller)) >= amount && old(BalanceOf(from)) >= amount
      ensures !ok ==> Value() == old(Value())
      ensures ok ==>
        (forall a :: BalanceOf(a) ==
                     if a == to then (old(BalanceOf(a)) + amount) % U64
                     else if a == from then old(BalanceOf(a)) - amount else old(BalanceOf(a)))
        && (forall a, b :: AllowanceOf(a, b) ==
                           old(AllowanceOf(a, b)) - if a == from && b == caller then amount else 0)
        && events == old(events) + [Transferred(from, to, amount)]
    {
      hide Moved;
      var allowed := AllowanceOf(from, caller);
      if allowed < amount {
        return false;
      }
      var fromBalance := BalanceOf(from);
      if fromBalance < amount {
        return false;
      }
      Move(from, to, amount);
      Spend(from, caller, amount);
      events := events + [Transferred(from, to, amount)];
      ok := true;
    }

    method Approve(caller: Account, spender: Account, amount: u64) returns (ok: bool)
      modifies `allowances, `events
      ensures ok && Value() == After(old(Value()), caller, Call.Approve(spender, amount))
      ensures forall a, b :: AllowanceOf(a, b) ==
                             if a == caller && b == spender then amount else old(AllowanceOf(a, b))
      ensures events == old(events) + [Approved(caller, spender, amount)]
    {
      if caller !in allowances {
        allowances := allowances[caller := map[]];
      }
      var spenders: map<Account, u64> := allowances[caller][spender := amount];
      allowances := allowances[caller := spenders];
      events := events + [Approved(caller, spender, amount)];
      ok := true;
    }
  }

  // ---------- The sum of the balances ----------

  ghost function Total(m: map<Account, u64>): nat
  {
    if m == map[] then 0 else
      var a :| a in m;
      m[a] + Total(m - {a})
  }

  lemma {:induction false} TotalWithout(m: map<Account, u64>, a: Account)
    requires a in m
    ensures Total(m) == m[a] + Total(m - {a})
    decreases |m|
  {
    var b :| b in m && Total(m) == m[b] + Total(m - {b});
    if a != b {
      TotalWithout(m - {b}, a);
      TotalWithout(m - {a}, b);
      assert m - {a} - {b} == m - {b} - {a};
    }
  }

  lemma TotalUpdate(m: map<Account, u64>, a: Account, v: u64)
    ensures Total(m[a := v]) == Total(m) - (if a in m then m[a] else 0) + v
  {
    TotalWithout(m[a := v], a);
    assert m[a := v] - {a} == m - {a};
    if a in m {
      TotalWithout(m, a);
    } else {
      assert m - {a} == m;
    }
  }

  /** The sum of the balances is the total supply. */
  ghost predicate Conserving(s: State)
  {
    Total(s.balances) == s.totalSupply
  }

  lemma NoBalanceAboveSupply(s: State, a: Account, b: Account)
    requires Conserving(s)
    ensures Balance(s, a) <= s.totalSupply
    ensures a != b ==> Balance(s, a) + Balance(s, b) <= s.totalSupply
  {
    TotalUpdate(s.balances, a, 0);
    TotalUpdate(s.balances[a := 0], b, 0);
  }

  // ---------- One call ----------

  /** A mint that takes the supply past 2^64. */
  predicate MintsTooMuch(s: State, call: Call)
  {
    call.Mint? && s.totalSupply + call.amount >= U64
  }

  /** A transferFrom that goes through, moves something, and names one account twice. */
  predicate CreditsItself(s: State, caller: Account, call: Call)
  {
    call.TransferFrom? && call.from == call.to && call.amount > 0 && ReplyTo(s, caller, call) == Yes
  }

  /** What a call that goes through adds to an account, in unbounded arithmetic. */
  function Gain(s: State, caller: Account, call: Call, a: Account): int
  {
    if ReplyTo(s, caller, call).No? || ReplyTo(s, caller, call).Aborted? then 0
    else match call
      case Initialize => 0 - Balance(s, a)
      case Mint(to, amount) => if a == to then amount else 0
      case Burn(from, amount) => if a == from then 0 - amount else 0
      case Transfer(to, amount) => MoveGain(caller, to, amount, a)
      case TransferFrom(from, to, amount) => MoveGain(from, to, amount, a)
      case Approve(_, _) => 0
  }

  function MoveGain(from: Account, to: Account, amount: u64, a: Account): int
  {
    (if a == to then amount else 0) - (if a == from then amount else 0)
  }

  /** While balances add up to the supply, a call does to every account exactly what the
      unbounded ledger does, so no credit or debit wraps around, unless it mints past 2^64 or is a
      transferFrom from an account to itself. */
  lemma CallIsExact(s: State, caller: Account, call: Call, a: Account)
    requires Conserving(s) && !MintsTooMuch(s, call) && !CreditsItself(s, caller, call)
    ensures Balance(After(s, caller, call), a) == Balance(s, a) + Gain(s, caller, call, a)
    ensures call.Mint? ==> After(s, caller, call).totalSupply == s.totalSupply + call.amount
    ensures call.Burn? && ReplyTo(s, caller, call) == Done ==>
              After(s, caller, call).totalSupply == s.totalSupply - call.amount
  {
    hide Total, Add, Sub, Moved;
    WordsExact(s.totalSupply, if call.Mint? then call.amount else 0);
    match call
    case Mint(to, amount) =>
      NoBalanceAboveSupply(s, to, to);
      WordsExact(Balance(s, to), amount);
    case Burn(from, amount) =>
      NoBalanceAboveSupply(s, from, from);
      WordsExact(Balance(s, from), amount);
      WordsExact(s.totalSupply, amount);
    case Transfer(to, amount) =>
      if ReplyTo(s, caller, call).Yes? && caller != to {
        MovedExact(s, caller, to, amount, a);
      }
    case TransferFrom(from, to, amount) =>
      if ReplyTo(s, caller, call).Yes? {
        MovedExact(s, from, to, amount, a);
      }
    case _ =>
  }

  lemma WordsExact(a: u64, b: u64)
    ensures Add(a, b) == if a + b < U64 then a + b else a + b - U64
    ensures b <= a ==> Sub(a, b) == a - b
  {
  }

  lemma MovedExact(s: State, from: Account, to: Account, amount: u64, a: Account)
    requires Conserving(s) && Balance(s, from) >= amount && (from == to ==> amount == 0)
    ensures var balances := Moved(s, from, to, amount);
            (if a in balances then balances[a] else 0) == Balance(s, a) + MoveGain(from, to, amount, a)
  {
    hide Total, Add, Sub;
    NoBalanceAboveSupply(s, from, to);
    WordsExact(Balance(s, to), amount);
    WordsExact(Balance(s, from), amount);
  }

  lemma MovedTotal(s: State, from: Account, to: Account, amount: u64)
    requires Balance(s, from) >= amount && from != to && Balance(s, to) + amount < U64
    ensures Total(Moved(s, from, to, amount)) == Total(s.balances)
  {
    hide Total, Add, Sub;
    WordsExact(Balance(s, to), amount);
    WordsExact(Balance(s, from), amount);
    var debited := s.balances[from := Sub(Balance(s, from), amount)];
    TotalUpdate(s.balances, from, Sub(Balance(s, from), amount));
    TotalUpdate(debited, to, Add(Balance(s, to), amount));
  }

  lemma SelfMovedTotal(s: State, from: Account, amount: u64)
    requires Balance(s, from) >= amount
    ensures Total(Moved(s, from, from, amount)) == Total(s.balances) - Balance(s, from) + Add(Balance(s, from), amount)
  {
    hide Total;
    assert Moved(s, from, from, amount) == s.balances[from := Add(Balance(s, from), amount)];
    TotalUpdate(s.balances, from, Add(Balance(s, from), amount));
  }

  /** A mint past 2^64 whose credit does not wrap as well, or a transferFrom from an account to
      itself that goes through. */
  predicate Breaks(s: State, caller: Account, call: Call)
  {
    (MintsTooMuch(s, call) && Balance(s, call.to) + call.amount < U64) || CreditsItself(s, caller, call)
  }

  /** Exactly which calls stop the balances from adding up to the supply. */
  lemma CallConserves(s: State, caller: Account, call: Call)
    requires Conserving(s)
    ensures Conserving(After(s, caller, call)) <==> !Breaks(s, caller, call)
  {
    hide Total, Moved, Spent, Add, Sub;
    match call
    case Initialize => NothingTotal();
    case Mint(to, amount) => MintTotal(s, to, amount);
    case Burn(from, amount) =>
      NoBalanceAboveSupply(s, from, from);
      WordsExact(Balance(s, from), amount);
      WordsExact(s.totalSupply, amount);
      TotalUpdate(s.balances, from, Sub(Balance(s, from), amount));
    case Transfer(to, amount) =>
      if ReplyTo(s, caller, call).Yes? && caller != to {
        NoBalanceAboveSupply(s, caller, to);
        MovedTotal(s, caller, to, amount);
      }
    case TransferFrom(from, to, amount) =>
      if ReplyTo(s, caller, call).Yes? {
        NoBalanceAboveSupply(s, from, to);
        if from != to {
          MovedTotal(s, from, to, amount);
        } else {
          SelfMovedTotal(s, from, amount);
          WordsExact(Balance(s, from), amount);
        }
      }
    case Approve(_, _) =>
  }

  lemma MintTotal(s: State, to: Account, amount: u64)
    requires Conserving(s)
    ensures Total(s.balances[to := Add(Balance(s, to), amount)]) == Add(s.totalSupply, amount) <==>
            s.totalSupply + amount < U64 || Balance(s, to) + amount >= U64
  {
    hide Total, Add;
    NoBalanceAboveSupply(s, to, to);
    TotalUpdate(s.balances, to, Add(Balance(s, to), amount));
    WordsExact(Balance(s, to), amount);
    WordsExact(s.totalSupply, amount);
  }

  lemma NothingTotal()
    ensures Total(map[]) == 0
  {
  }

  /** Five tokens become ten: one holder, the holder's spender, one transferFrom to the holder. */
  lemma SelfTransferFromInflates()
    ensures var s := After(After(State(0, map[], map[], []), "a", Mint("a", 5)), "a", Approve("b", 5));
            var t := After(s, "b", TransferFrom("a", "a", 5));
            Conserving(s) && ReplyTo(s, "b", TransferFrom("a", "a", 5)) == Yes
            && Balance(t, "a") == 10 && t.totalSupply == 5 && !Conserving(t)
  {
    var empty := State(0, map[], map[], []);
    NothingTotal();
    CallConserves(empty, "a", Mint("a", 5));
    var minted := After(empty, "a", Mint("a", 5));
    CallConserves(minted, "a", Approve("b", 5));
    var s := After(minted, "a", Approve("b", 5));
    CallConserves(s, "b", TransferFrom("a", "a", 5));
  }

  /** Nobody loses tokens but by a call of their own, by a spender they allowed that much, or by
      an Initialize, which anyone may call. */
  lemma DebitsNeedConsent(s: State, caller: Account, call: Call, a: Account)
    requires Conserving(s) && !MintsTooMuch(s, call) && !CreditsItself(s, caller, call)
    requires Balance(After(s, caller, call), a) < Balance(s, a)
    ensures call.Initialize? || caller == a
            || (call.TransferFrom? && call.from == a && Allowance(s, a, caller) >= call.amount)
  {
    hide After, Total;
    CallIsExact(s, caller, call, a);
  }

  // ---------- Runs ----------

  datatype Invocation = Invocation(caller: Account, call: Call)

  function AfterRun(s: State, run: seq<Invocation>): State
    decreases |run|
  {
    if run == [] then s else AfterRun(After(s, run[0].caller, run[0].call), run[1..])
  }

  /** At every call of the run: no mint past 2^64, and no transferFrom that goes through, moves
      something and names one account twice. */
  predicate Careful(s: State, run: seq<Invocation>)
    decreases |run|
  {
    run == [] ||
    (!MintsTooMuch(s, run[0].call) && !CreditsItself(s, run[0].caller, run[0].call)
     && Careful(After(s, run[0].caller, run[0].call), run[1..]))
  }

  /** In every state of the run, the first and the last among them. */
  ghost predicate StaysConserving(s: State, run: seq<Invocation>)
    decreases |run|
  {
    Conserving(s) && (run == [] || StaysConserving(After(s, run[0].caller, run[0].call), run[1..]))
  }

  predicate NoneBreaks(s: State, run: seq<Invocation>)
    decreases |run|
  {
    run == [] ||
    (!Breaks(s, run[0].caller, run[0].call) && NoneBreaks(After(s, run[0].caller, run[0].call), run[1..]))
  }

  /** In a run from a state where they do, the balances add up to the supply throughout exactly
      when no call breaks that; over a careful run they do. */
  lemma {:induction false} RunsConserve(s: State, run: seq<Invocation>)
    requires Conserving(s)
    ensures StaysConserving(s, run) <==> NoneBreaks(s, run)
    ensures StaysConserving(s, run) ==> Conserving(AfterRun(s, run))
    ensures Careful(s, run) ==> StaysConserving(s, run)
    decreases |run|
  {
    hide After, Conserving, Total;
    if run != [] {
      CallConserves(s, run[0].caller, run[0].call);
      if Conserving(After(s, run[0].caller, run[0].call)) {
        RunsConserve(After(s, run[0].caller, run[0].call), run[1..]);
      }
    }
  }

  /** What the Transfer events say an account gained. */
  function Net(events: seq<Event>, a: Account): int
  {
    if events == [] then 0
    else
      var last := events[|events| - 1];
      Net(events[..|events| - 1], a) + if last.Transferred? then MoveGain(last.from, last.to, last.value, a) else 0
  }

  /** The log replays to the balances; the empty account also stands for what is not in
      circulation, and is debited by every mint. */
  ghost predicate Logged(s: State)
  {
    forall a: Account :: Net(s.events, a) == Balance(s, a) - if a == "" then s.totalSupply else 0
  }

  lemma {:induction false} CallLogs(s: State, caller: Account, call: Call, a: Account)
    requires Conserving(s) && !MintsTooMuch(s, call) && !CreditsItself(s, caller, call) && !call.Initialize?
    requires Net(s.events, a) == Balance(s, a) - if a == "" then s.totalSupply else 0
    ensures var s' := After(s, caller, call);
            Net(s'.events, a) == Balance(s', a) - if a == "" then s'.totalSupply else 0
  {
    hide Balance, Total, Net, Moved, Spent, Conserving;
    CallIsExact(s, caller, call, a);
    var s' := After(s, caller, call);
    if s'.events != s.events {
      assert s'.events[..|s'.events| - 1] == s.events;
      NetUnfold(s'.events, a);
    }
  }

  lemma NetUnfold(events: seq<Event>, a: Account)
    requires events != []
    ensures var last := events[|events| - 1];
            Net(events, a) == Net(events[..|events| - 1], a)
                              + if last.Transferred? then MoveGain(last.from, last.to, last.value, a) else 0
  {
  }

  /** Over every careful run without another Initialize, the Transfer events alone tell every
      balance and the total supply. */
  lemma {:induction false} EventsTellBalances(s: State, run: seq<Invocation>)
    requires Conserving(s) && Logged(s) && Careful(s, run)
    requires forall i :: i in run ==> !i.call.Initialize?
    ensures Logged(AfterRun(s, run))
    decreases |run|
  {
    hide After, Conserving, Net, Balance;
    if run != [] {
      var s' := After(s, run[0].caller, run[0].call);
      forall a: Account
        ensures Net(s'.events, a) == Balance(s', a) - if a == "" then s'.totalSupply else 0
      {
        CallLogs(s, run[0].caller, run[0].call, a);
      }
      CallConserves(s, run[0].caller, run[0].call);
      EventsTellBalances(s', run[1..]);
    }
  }

  /** From the empty contract on: over every careful run without another Initialize, no balance
      exceeds the supply, and the Transfer events tell them all. */
  lemma CarefulFromEmpty(run: seq<Invocation>, a: Account)
    requires Careful(State(0, map[], map[], []), run) && forall i :: i in run ==> !i.call.Initialize?
    ensures var s := AfterRun(State(0, map[], map[], []), run);
            Conserving(s) && Balance(s, a) <= s.totalSupply
            && Balance(s, a) == Net(s.events, a) + if a == "" then s.totalSupply else 0
  {
    var empty := State(0, map[], map[], []);
    assert Conserving(empty) && Logged(empty);
    hide AfterRun, Careful, Balance, Net, Total;
    RunsConserve(empty, run);
    EventsTellBalances(empty, run);
    NoBalanceAboveSupply(AfterRun(empty, run), a, a);
  }

  /** What a spender has drawn on an owner's account in a run. */
  function Drawn(s: State, run: seq<Invocation>, owner: Account, spender: Account): nat
    decreases |run|
  {
    if run == [] then 0
    else DrawnBy(s, run[0], owner, spender) + Drawn(After(s, run[0].caller, run[0].call), run[1..], owner, spender)
  }

  function DrawnBy(s: State, i: Invocation, owner: Account, spender: Account): nat
  {
    if i.call.TransferFrom? && i.call.from == owner && i.caller == spender && ReplyTo(s, i.caller, i.call) == Yes
    then i.call.amount else 0
  }

  predicate Regrants(i: Invocation, owner: Account, spender: Account)
  {
    i.call.Initialize? || (i.call.Approve? && i.caller == owner && i.call.spender == spender)
  }

  lemma CallDraws(s: State, i: Invocation, owner: Account, spender: Account)
    requires !Regrants(i, owner, spender)
    ensures Allowance(s, owner, spender) ==
            DrawnBy(s, i, owner, spender) + Allowance(After(s, i.caller, i.call), owner, spender)
  {
  }

  /** Between two approvals a spender draws what its allowance shrinks by: never more than was
      approved, in any run, whatever else is called. */
  lemma {:induction false} AllowanceBoundsDrawing(s: State, run: seq<Invocation>, owner: Account, spender: Account)
    requires forall i :: i in run ==> !Regrants(i, owner, spender)
    ensures Allowance(s, owner, spender) ==
            Drawn(s, run, owner, spender) + Allowance(AfterRun(s, run), owner, spender)
    decreases |run|
  {
    hide After, Allowance, DrawnBy, Regrants;
    if run != [] {
      CallDraws(s, run[0], owner, spender);
      AllowanceBoundsDrawing(After(s, run[0].caller, run[0].call), run[1..], owner, spender);
    }
  }
}
