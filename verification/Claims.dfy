/** The bridge: claims minted by a network's bridge account, claimed once with a signature, and burns. */
module Claims {
  import opened Arith
  import opened Options
  import opened Sums
  import opened Balances

  type AccountId = nat
  type Address = nat
  type TxHash = nat
  type Signature = nat

  datatype Network = BSC | Ethereum | CloverPara

  datatype Claim = Claim(address: Address, amount: nat, claimed: bool)

  datatype Fees = Fees(mint: nat, burn: nat)

  type Key = (Network, TxHash)

  datatype State = State(
    claims: map<Key, Claim>,
    limits: map<Network, nat>,
    fees: map<Network, Fees>,
    bridges: map<Network, AccountId>,
    free: Free)

  /** `recover` is the address that signed an account and a transaction hash; `feeAccount` collects fees. */
  datatype Env =
    Env(recover: (Signature, AccountId, TxHash) -> Option<Address>, feeAccount: AccountId, minimumBalance: nat)

  datatype Error =
    | NoPermission | AlreadyMinted | AlreadyClaimed | ClaimLimitExceeded | TxNotMinted
    | InvalidEthereumSignature | SignatureNotMatch | InvalidAmount | WithdrawFailed

  const ZERO_ADDRESS: Address := 0

  /** History: what a call did. */
  datatype Entry =
    | Minted(network: Network, amount: nat, fee: nat)
    | Credited(network: Network, tx: TxHash, amount: nat)
    | Burned(amount: nat, fee: nat)
    | LimitSet(network: Network, limit: nat)

  datatype World = World(st: State, log: seq<Entry>)

  function LimitOf(st: State, n: Network): nat { if n in st.limits then st.limits[n] else 0 }

  function FeesOf(st: State, n: Network): Fees { if n in st.fees then st.fees[n] else Fees(0, 0) }

  /** What is left of a value when the fee is taken; a positive fee must leave something. */
  function AfterFee(value: nat, fee: nat): Option<nat> {
    if fee > 0 && value <= fee then None else Some(value - fee)
  }

  /** The checks both ways of minting share; the claim amount if they pass. */
  function CheckMint(st: State, from: AccountId, n: Network, tx: TxHash, value: nat): Result<nat, Error> {
    if n !in st.bridges || st.bridges[n] != from then Err(NoPermission)
    else if (n, tx) in st.claims then Err(AlreadyMinted)
    else if LimitOf(st, n) < value then Err(ClaimLimitExceeded)
    else if AfterFee(value, FeesOf(st, n).mint).None? then Err(InvalidAmount)
    else Ok(AfterFee(value, FeesOf(st, n).mint).value)
  }

  function WithFee(env: Env, free: Free, fee: nat): Free {
    if fee > 0 then Deposited(free, env.feeAccount, fee) else free
  }

  function WithClaim(st: State, n: Network, tx: TxHash, claim: Claim): State {
    st.(claims := st.claims[(n, tx) := claim], limits := st.limits[n := Monus(LimitOf(st, n), claim.amount)])
  }

  function MintedClaim(env: Env, w: World, from: AccountId, n: Network, tx: TxHash, who: Address, value: nat)
    : Result<World, Error>
  {
    match CheckMint(w.st, from, n, tx, value)
    case Err(e) => Err(e)
    case Ok(amount) =>
      var fee := FeesOf(w.st, n).mint;
      var st := WithClaim(w.st, n, tx, Claim(who, amount, false));
      Ok(World(st.(free := WithFee(env, st.free, fee)), w.log + [Minted(n, amount, fee)]))
  }

  function ClaimedBy(env: Env, w: World, n: Network, dest: AccountId, tx: TxHash, sig: Signature)
    : Result<World, Error>
  {
    if (n, tx) !in w.st.claims then Err(TxNotMinted)
    else
      var c := w.st.claims[(n, tx)];
      if c.claimed then Err(AlreadyClaimed)
      else
        match env.recover(sig, dest, tx)
        case None => Err(InvalidEthereumSignature)
        case Some(signer) =>
          if c.address != signer then Err(SignatureNotMatch)
          else
            Ok(World(w.st.(free := Deposited(w.st.free, dest, c.amount),
                           claims := w.st.claims[(n, tx) := Claim(c.address, c.amount, true)]),
                     w.log + [Credited(n, tx, c.amount)]))
  }

  /** A withdrawal that must keep the account alive. */
  predicate CanWithdraw(env: Env, free: Free, who: AccountId, amount: nat) {
    amount == 0 || amount + env.minimumBalance <= BalanceOf(free, who)
  }

  function BurnedBy(env: Env, w: World, who: AccountId, n: Network, amount: nat): Result<World, Error> {
    var fee := FeesOf(w.st, n).burn;
    if AfterFee(amount, fee).None? then Err(InvalidAmount)
    else if !CanWithdraw(env, w.st.free, who, amount) then Err(WithdrawFailed)
    else
      Ok(World(w.st.(free := WithFee(env, Withdrawn(w.st.free, who, amount), fee)), w.log + [Burned(amount, fee)]))
  }

  function MintedAndSent(env: Env, w: World, from: AccountId, n: Network, tx: TxHash, dest: AccountId, value: nat)
    : Result<World, Error>
  {
    match CheckMint(w.st, from, n, tx, value)
    case Err(e) => Err(e)
    case Ok(amount) =>
      var fee := FeesOf(w.st, n).mint;
      var st := WithClaim(w.st.(free := Deposited(w.st.free, dest, amount)), n, tx, Claim(ZERO_ADDRESS, amount, true));
      Ok(World(st.(free := WithFee(env, st.free, fee)), w.log + [Minted(n, amount, fee), Credited(n, tx, amount)]))
  }

  // ---- runs

  datatype Op =
    | MintClaim(from: AccountId, network: Network, tx: TxHash, who: Address, value: nat)
    | DoClaim(network: Network, dest: AccountId, tx: TxHash, sig: Signature)
    | Burn(who: AccountId, network: Network, amount: nat)
    | MintAndSend(from: AccountId, network: Network, tx: TxHash, dest: AccountId, value: nat)
    | SetLimit(network: Network, limit: nat)
    | SetFees(network: Network, fees: Fees)
    | SetBridge(network: Network, account: AccountId)

  function Attempt(env: Env, w: World, op: Op): Result<World, Error> {
    match op
    case MintClaim(from, n, tx, who, value) => MintedClaim(env, w, from, n, tx, who, value)
    case DoClaim(n, dest, tx, sig) => ClaimedBy(env, w, n, dest, tx, sig)
    case Burn(who, n, amount) => BurnedBy(env, w, who, n, amount)
    case MintAndSend(from, n, tx, dest, value) => MintedAndSent(env, w, from, n, tx, dest, value)
    case SetLimit(n, limit) => Ok(World(w.st.(limits := w.st.limits[n := limit]), w.log + [LimitSet(n, limit)]))
    case SetFees(n, fees) => Ok(w.(st := w.st.(fees := w.st.fees[n := fees])))
    case SetBridge(n, account) => Ok(w.(st := w.st.(bridges := w.st.bridges[n := account])))
  }

  function Run(env: Env, w: World, ops: seq<Op>): World {
    if ops == [] then w
    else
      var before := Run(env, w, ops[..|ops| - 1]);
      var r := Attempt(env, before, ops[|ops| - 1]);
      if r.Ok? then r.value else before
  }

  // ---- reading the history

  /** How often a transaction of a network was credited. */
  function Credits(log: seq<Entry>, key: Key): nat {
    if log == [] then 0
    else
      var e := log[|log| - 1];
      Credits(log[..|log| - 1], key) + if e.Credited? && (e.network, e.tx) == key then 1 else 0
  }

  /** The amount credited for a transaction. */
  function CreditedFor(log: seq<Entry>, key: Key): nat {
    if log == [] then 0
    else
      var e := log[|log| - 1];
      CreditedFor(log[..|log| - 1], key) + if e.Credited? && (e.network, e.tx) == key then e.amount else 0
  }

  /** Everything credited. */
  function CreditedTotal(log: seq<Entry>): nat {
    if log == [] then 0
    else
      var e := log[|log| - 1];
      CreditedTotal(log[..|log| - 1]) + if e.Credited? then e.amount else 0
  }

  /** What the entries did to the total issuance: credits and mint fees in, burns net of burn fees out. */
  function IssuanceChange(log: seq<Entry>): int {
    if log == [] then 0
    else
      var before := IssuanceChange(log[..|log| - 1]);
      match log[|log| - 1]
      case Minted(_, _, fee) => before + fee
      case Credited(_, _, amount) => before + amount
      case Burned(amount, fee) => before - (amount - fee)
      case LimitSet(_, _) => before
  }

  /** The limit of a network when it was last set, and the claim amounts minted since. */
  function LimitAtReset(log: seq<Entry>, n: Network, initial: nat): nat {
    if log == [] then initial
    else
      var e := log[|log| - 1];
      if e.LimitSet? && e.network == n then e.limit else LimitAtReset(log[..|log| - 1], n, initial)
  }

  function MintedSinceReset(log: seq<Entry>, n: Network): nat {
    if log == [] then 0
    else
      var e := log[|log| - 1];
      if e.LimitSet? && e.network == n then 0
      else MintedSinceReset(log[..|log| - 1], n) + if e.Minted? && e.network == n then e.amount else 0
  }

  /** The amount of a claim that has been claimed. */
  function ClaimedAmount(claims: map<Key, Claim>, key: Key): nat {
    if key in claims && claims[key].claimed then claims[key].amount else 0
  }

  ghost function ClaimedTotal(claims: map<Key, Claim>): int {
    SumSet(claims.Keys, (k: Key) => ClaimedAmount(claims, k))
  }

  lemma ClaimedTotalUpdate(claims: map<Key, Claim>, key: Key, c: Claim)
    ensures ClaimedTotal(claims[key := c])
         == ClaimedTotal(claims) - ClaimedAmount(claims, key) + if c.claimed then c.amount else 0
  {
    var claims' := claims[key := c];
    var f, g := (k: Key) => ClaimedAmount(claims, k), (k: Key) => ClaimedAmount(claims', k);
    if key in claims {
      assert claims'.Keys == claims.Keys;
      SumSetUpdate(claims.Keys, f, g, key);
    } else {
      assert claims'.Keys == claims.Keys + {key};
      SumSetInsert(claims.Keys, g, key);
      SumSetSame(claims.Keys, f, g);
    }
  }

  // ---- what every run keeps

  /** Claims agree with the credits in the history, limits with the amounts minted, balances with both. */
  ghost predicate Conserved(start: State, w: World) {
    CreditsAgree(w) && LimitsAgree(start, w) && Total(w.st.free) == Total(start.free) + IssuanceChange(w.log)
  }

  ghost predicate CreditsAgree(w: World) {
    && (forall key :: Credits(w.log, key) == if key in w.st.claims && w.st.claims[key].claimed then 1 else 0)
    && (forall key :: CreditedFor(w.log, key) == ClaimedAmount(w.st.claims, key))
    && CreditedTotal(w.log) == ClaimedTotal(w.st.claims)
  }

  ghost predicate LimitsAgree(start: State, w: World) {
    forall n :: LimitOf(w.st, n) + MintedSinceReset(w.log, n) == LimitAtReset(w.log, n, LimitOf(start, n))
  }

  lemma Append(log: seq<Entry>, e: Entry)
    ensures (log + [e])[..|log + [e]| - 1] == log && (log + [e])[|log + [e]| - 1] == e
  {
  }

  lemma DepositTotal(free: Free, who: AccountId, value: nat)
    ensures Total(Deposited(free, who, value)) == Total(free) + value
  {
    TotalUpdate(free, who, BalanceOf(free, who) + value);
  }

  lemma FeeTotal(env: Env, free: Free, fee: nat)
    ensures Total(WithFee(env, free, fee)) == Total(free) + fee
  {
    DepositTotal(free, env.feeAccount, fee);
  }

  lemma MintKeepsCredits(w: World, w': World, key: Key, c: Claim, fee: nat)
    requires CreditsAgree(w) && key !in w.st.claims && !c.claimed
    requires w'.log == w.log + [Minted(key.0, c.amount, fee)] && w'.st.claims == w.st.claims[key := c]
    ensures CreditsAgree(w')
  {
    Append(w.log, Minted(key.0, c.amount, fee));
    ClaimedTotalUpdate(w.st.claims, key, c);
  }

  lemma MintKeepsLimits(start: State, w: World, w': World, n: Network, amount: nat, fee: nat)
    requires LimitsAgree(start, w) && amount <= LimitOf(w.st, n)
    requires w'.log == w.log + [Minted(n, amount, fee)]
    requires w'.st.limits == w.st.limits[n := LimitOf(w.st, n) - amount]
    ensures LimitsAgree(start, w')
  {
    Append(w.log, Minted(n, amount, fee));
  }

  /** Recording a claim uses up as much of the limit as the claim is worth; nothing is credited yet. */
  lemma MintConserves(env: Env, start: State, w: World, from: AccountId, n: Network, tx: TxHash, who: Address,
                      value: nat)
    requires Conserved(start, w) && MintedClaim(env, w, from, n, tx, who, value).Ok?
    ensures Conserved(start, MintedClaim(env, w, from, n, tx, who, value).value)
  {
    var amount := CheckMint(w.st, from, n, tx, value).value;
    var fee, w' := FeesOf(w.st, n).mint, MintedClaim(env, w, from, n, tx, who, value).value;
    MintKeepsCredits(w, w', (n, tx), Claim(who, amount, false), fee);
    MintKeepsLimits(start, w, w', n, amount, fee);
    FeeTotal(env, w.st.free, fee);
    Append(w.log, Minted(n, amount, fee));
  }

  /** Marking a recorded claim as claimed while its amount enters the balances. */
  lemma CreditConserves(start: State, w: World, n: Network, tx: TxHash, free: Free)
    requires Conserved(start, w) && (n, tx) in w.st.claims && !w.st.claims[(n, tx)].claimed
    requires Total(free) == Total(w.st.free) + w.st.claims[(n, tx)].amount
    ensures var c := w.st.claims[(n, tx)];
            var st := w.st.(free := free, claims := w.st.claims[(n, tx) := Claim(c.address, c.amount, true)]);
            Conserved(start, World(st, w.log + [Credited(n, tx, c.amount)]))
  {
    var c := w.st.claims[(n, tx)];
    Append(w.log, Credited(n, tx, c.amount));
    ClaimedTotalUpdate(w.st.claims, (n, tx), Claim(c.address, c.amount, true));
  }

  lemma ClaimConserves(env: Env, start: State, w: World, n: Network, dest: AccountId, tx: TxHash, sig: Signature)
    requires Conserved(start, w) && ClaimedBy(env, w, n, dest, tx, sig).Ok?
    ensures Conserved(start, ClaimedBy(env, w, n, dest, tx, sig).value)
  {
    ClaimIsCredit(env, w, n, dest, tx, sig);
    DepositTotal(w.st.free, dest, w.st.claims[(n, tx)].amount);
    CreditConserves(start, w, n, tx, Deposited(w.st.free, dest, w.st.claims[(n, tx)].amount));
  }

  lemma ClaimIsCredit(env: Env, w: World, n: Network, dest: AccountId, tx: TxHash, sig: Signature)
    requires ClaimedBy(env, w, n, dest, tx, sig).Ok?
    ensures (n, tx) in w.st.claims && !w.st.claims[(n, tx)].claimed
    ensures var c := w.st.claims[(n, tx)];
            var st := w.st.(free := Deposited(w.st.free, dest, c.amount),
                            claims := w.st.claims[(n, tx) := Claim(c.address, c.amount, true)]);
            ClaimedBy(env, w, n, dest, tx, sig).value == World(st, w.log + [Credited(n, tx, c.amount)])
  {
  }

  lemma BurnConserves(env: Env, start: State, w: World, who: AccountId, n: Network, amount: nat)
    requires Conserved(start, w) && BurnedBy(env, w, who, n, amount).Ok?
    ensures Conserved(start, BurnedBy(env, w, who, n, amount).value)
  {
    var fee := FeesOf(w.st, n).burn;
    Append(w.log, Burned(amount, fee));
    TotalUpdate(w.st.free, who, Monus(BalanceOf(w.st.free, who), amount));
    FeeTotal(env, Withdrawn(w.st.free, who, amount), fee);
  }

  lemma MintAndSendConserves(env: Env, start: State, w: World, from: AccountId, n: Network, tx: TxHash, dest: AccountId,
                             value: nat)
    requires Conserved(start, w) && MintedAndSent(env, w, from, n, tx, dest, value).Ok?
    ensures Conserved(start, MintedAndSent(env, w, from, n, tx, dest, value).value)
  {
    var amount := CheckMint(w.st, from, n, tx, value).value;
    var fee := FeesOf(w.st, n).mint;
    var minted := MintedClaim(env, w, from, n, tx, ZERO_ADDRESS, value).value;
    MintConserves(env, start, w, from, n, tx, ZERO_ADDRESS, value);
    FeeTotal(env, w.st.free, fee);
    DepositTotal(w.st.free, dest, amount);
    FeeTotal(env, Deposited(w.st.free, dest, amount), fee);
    CreditConserves(start, minted, n, tx, WithFee(env, Deposited(w.st.free, dest, amount), fee));
    SameWorld(env, w, from, n, tx, dest, value);
  }

  /** Minting and sending is the mint of a claim for the zero address, credited at once. */
  lemma SameWorld(env: Env, w: World, from: AccountId, n: Network, tx: TxHash, dest: AccountId, value: nat)
    requires MintedAndSent(env, w, from, n, tx, dest, value).Ok?
    ensures var amount := CheckMint(w.st, from, n, tx, value).value;
            var m := MintedClaim(env, w, from, n, tx, ZERO_ADDRESS, value).value;
            var free := WithFee(env, Deposited(w.st.free, dest, amount), FeesOf(w.st, n).mint);
            MintedAndSent(env, w, from, n, tx, dest, value).value
              == World(m.st.(free := free, claims := m.st.claims[(n, tx) := Claim(ZERO_ADDRESS, amount, true)]),
                       m.log + [Credited(n, tx, amount)])
  {
    var amount := CheckMint(w.st, from, n, tx, value).value;
    var m := MintedClaim(env, w, from, n, tx, ZERO_ADDRESS, value).value;
    assert m.log + [Credited(n, tx, amount)] == MintedAndSent(env, w, from, n, tx, dest, value).value.log;
  }

  lemma SetLimitConserves(start: State, w: World, n: Network, limit: nat)
    requires Conserved(start, w)
    ensures Conserved(start, World(w.st.(limits := w.st.limits[n := limit]), w.log + [LimitSet(n, limit)]))
  {
    Append(w.log, LimitSet(n, limit));
  }

  lemma SettingConserves(start: State, w: World, st: State)
    requires Conserved(start, w)
    requires st.claims == w.st.claims && st.limits == w.st.limits && st.free == w.st.free
    ensures Conserved(start, World(st, w.log))
  {
  }

  lemma AttemptConserves(env: Env, start: State, w: World, op: Op)
    requires Conserved(start, w) && Attempt(env, w, op).Ok?
    ensures Conserved(start, Attempt(env, w, op).value)
  {
    match op
    case MintClaim(from, n, tx, who, value) => MintConserves(env, start, w, from, n, tx, who, value);
    case DoClaim(n, dest, tx, sig) => ClaimConserves(env, start, w, n, dest, tx, sig);
    case Burn(who, n, amount) => BurnConserves(env, start, w, who, n, amount);
    case MintAndSend(from, n, tx, dest, value) => MintAndSendConserves(env, start, w, from, n, tx, dest, value);
    case SetLimit(n, limit) => SetLimitConserves(start, w, n, limit);
    case SetFees(n, fees) => SettingConserves(start, w, w.st.(fees := w.st.fees[n := fees]));
    case SetBridge(n, account) => SettingConserves(start, w, w.st.(bridges := w.st.bridges[n := account]));
  }

  /** Over any run from an empty claim table each transaction of a network is credited at most once and for
      exactly its recorded amount, all credits add up to the claimed entries, the limit of a network and what was
      minted since it was set add up to what it was set to, and the issuance changes by credits and fees less
      what was burned. */
  lemma {:induction false} RunConserves(env: Env, start: State, ops: seq<Op>)
    requires start.claims == map[]
    ensures Conserved(start, Run(env, World(start, []), ops))
  {
    if ops == [] {
      assert ClaimedTotal(start.claims) == 0;
    } else {
      RunConserves(env, start, ops[..|ops| - 1]);
      var w := Run(env, World(start, []), ops[..|ops| - 1]);
      if Attempt(env, w, ops[|ops| - 1]).Ok? { AttemptConserves(env, start, w, ops[|ops| - 1]); }
    }
  }

  // ---- what a step does

  /** What the network allows to be minted, and its two fees; nothing is set before it is first set. */
  function LimitSetFor(st: State, n: Network): nat { if n in st.limits then st.limits[n] else 0 }

  function MintFee(st: State, n: Network): nat { if n in st.fees then st.fees[n].mint else 0 }

  function BurnFee(st: State, n: Network): nat { if n in st.fees then st.fees[n].burn else 0 }

  /** Balances move by what the two accounts get. */
  ghost predicate Receive(free: Free, free': Free, a: AccountId, x: int, b: AccountId, y: int) {
    forall who :: BalanceOf(free', who) == BalanceOf(free, who) + (if who == a then x else 0) + (if who == b then y else 0)
  }

  /** Minting succeeds exactly for the bridge account of the network and a new transaction, within the limit, when the
      fee leaves something. */
  lemma MintSucceedsIff(env: Env, w: World, op: Op)
    requires op.MintClaim? || op.MintAndSend?
    ensures var n, fee := op.network, MintFee(w.st, op.network);
            Attempt(env, w, op).Ok? <==>
              && n in w.st.bridges && w.st.bridges[n] == op.from && (n, op.tx) !in w.st.claims
              && op.value <= LimitSetFor(w.st, n) && (fee == 0 || fee < op.value)
  {
  }

  /** It records the address the bridge named and the value less the fee, or has it sent at once; the limit falls by as
      much and the fee account gets the fee. Nothing else changes. */
  lemma MintEffect(env: Env, w: World, op: Op)
    requires (op.MintClaim? || op.MintAndSend?) && Attempt(env, w, op).Ok?
    ensures var n, key, fee := op.network, (op.network, op.tx), MintFee(w.st, op.network);
            var st, left := Attempt(env, w, op).value.st, op.value - fee;
            && st.claims
               == w.st.claims[key := if op.MintClaim? then Claim(op.who, left, false) else Claim(ZERO_ADDRESS, left, true)]
            && 0 <= left <= LimitSetFor(w.st, n) && st.limits == w.st.limits[n := LimitSetFor(w.st, n) - left]
            && st.fees == w.st.fees && st.bridges == w.st.bridges
            && Receive(w.st.free, st.free, env.feeAccount, fee, if op.MintAndSend? then op.dest else 0,
                       if op.MintAndSend? then left else 0)
  {
    var fee, free := MintFee(w.st, op.network), w.st.free;
    if op.MintAndSend? {
      FeeReceived(env, free, op.dest, op.value - fee, fee);
    } else {
      FeeReceived(env, free, 0, 0, fee);
    }
  }

  lemma FeeReceived(env: Env, free: Free, dest: AccountId, left: nat, fee: nat)
    ensures Receive(free, WithFee(env, Deposited(free, dest, left), fee), env.feeAccount, fee, dest, left)
    ensures Receive(free, WithFee(env, free, fee), env.feeAccount, fee, 0, 0)
  {
  }

  /** Claiming succeeds exactly when the transaction is recorded, not claimed yet, and its address has signed for the
      receiver; the receiver gets the amount and the claim is marked. Nothing else changes. */
  lemma ClaimEffect(env: Env, w: World, op: Op)
    requires op.DoClaim?
    ensures var key, r := (op.network, op.tx), Attempt(env, w, op);
            && (r.Ok? <==> key in w.st.claims && !w.st.claims[key].claimed
                           && env.recover(op.sig, op.dest, op.tx) == Some(w.st.claims[key].address))
            && (r.Ok? ==>
                  && r.value.st.claims == w.st.claims[key := w.st.claims[key].(claimed := true)]
                  && r.value.st.(claims := w.st.claims, free := w.st.free) == w.st
                  && Receive(w.st.free, r.value.st.free, op.dest, w.st.claims[key].amount, 0, 0))
  {
  }

  /** Burning succeeds exactly when the fee leaves something and the balance keeps the account alive; the amount leaves
      the account and the fee account gets the fee. Nothing else changes. */
  lemma BurnEffect(env: Env, w: World, op: Op)
    requires op.Burn?
    ensures var fee, r := BurnFee(w.st, op.network), Attempt(env, w, op);
            && (r.Ok? <==> (fee == 0 || fee < op.amount)
                           && (op.amount == 0 || op.amount + env.minimumBalance <= BalanceOf(w.st.free, op.who)))
            && (r.Ok? ==>
                  && r.value.st.(free := w.st.free) == w.st
                  && Receive(w.st.free, r.value.st.free, env.feeAccount, fee, op.who, -(op.amount as int)))
  {
  }

  // ---- who may do what

  /** A successful step that records a claim: made by the network's bridge account, within its limit, and worth
      the value less the fee. The claim is for the address the bridge named, or it was sent to the receiver at once. */
  ghost predicate MintedByBridge(env: Env, w: World, op: Op, key: Key, amount: nat) {
    && (op.MintClaim? || op.MintAndSend?) && key == (op.network, op.tx)
    && key !in w.st.claims && Attempt(env, w, op).Ok?
    && op.network in w.st.bridges && w.st.bridges[op.network] == op.from
    && op.value <= LimitSetFor(w.st, op.network)
    && amount == op.value - MintFee(w.st, op.network)
    && (var st := Attempt(env, w, op).value.st;
        && (op.MintClaim? ==> st.claims == w.st.claims[key := Claim(op.who, amount, false)])
        && (op.MintAndSend? ==>
              && st.claims == w.st.claims[key := Claim(ZERO_ADDRESS, amount, true)]
              && BalanceOf(st.free, op.dest) >= BalanceOf(w.st.free, op.dest) + amount))
  }

  /** A successful step that claims a recorded claim: its address has signed for the receiver, who is credited
      the amount. */
  ghost predicate ClaimedBySigner(env: Env, w: World, op: Op, key: Key, c: Claim) {
    && op.DoClaim? && key == (op.network, op.tx) && env.recover(op.sig, op.dest, op.tx) == Some(c.address)
    && Attempt(env, w, op).Ok?
    && BalanceOf(Attempt(env, w, op).value.st.free, op.dest) == BalanceOf(w.st.free, op.dest) + c.amount
  }

  lemma StepMints(env: Env, w: World, op: Op, key: Key)
    requires Attempt(env, w, op).Ok? && key !in w.st.claims && key in Attempt(env, w, op).value.st.claims
    ensures MintedByBridge(env, w, op, key, Attempt(env, w, op).value.st.claims[key].amount)
  {
  }

  lemma StepKeepsClaim(env: Env, w: World, op: Op, key: Key)
    requires Attempt(env, w, op).Ok? && key in w.st.claims
    ensures var st, c := Attempt(env, w, op).value.st, w.st.claims[key];
            && key in st.claims && st.claims[key] == c.(claimed := st.claims[key].claimed)
            && (c.claimed ==> st.claims[key].claimed)
            && (!c.claimed && st.claims[key].claimed ==> ClaimedBySigner(env, w, op, key, c))
  {
  }

  /** The world before step k of a run. */
  function Before(env: Env, w: World, ops: seq<Op>, k: nat): World
    requires k <= |ops|
  {
    Run(env, w, ops[..k])
  }

  lemma BeforeInit(env: Env, w: World, ops: seq<Op>, k: nat)
    requires ops != [] && k < |ops|
    ensures Before(env, w, ops[..|ops| - 1], k) == Before(env, w, ops, k)
  {
    assert ops[..|ops| - 1][..k] == ops[..k];
  }

  /** The claim of a key after a run is the one before it, or the last step has claimed it. */
  lemma LastStepClaims(env: Env, w: World, ops: seq<Op>, key: Key)
    requires ops != [] && key in Run(env, w, ops[..|ops| - 1]).st.claims
    ensures var before, st := Before(env, w, ops, |ops| - 1), Run(env, w, ops).st;
            var c := before.st.claims[key];
            && before == Run(env, w, ops[..|ops| - 1])
            && key in st.claims && st.claims[key] == c.(claimed := st.claims[key].claimed)
            && (c.claimed ==> st.claims[key].claimed)
            && (!c.claimed && st.claims[key].claimed ==> ClaimedBySigner(env, before, ops[|ops| - 1], key, c))
  {
    var before, op := Run(env, w, ops[..|ops| - 1]), ops[|ops| - 1];
    if Attempt(env, before, op).Ok? { StepKeepsClaim(env, before, op, key); }
  }

  /** Some step of a run claimed the key by a signature of the claim's address. */
  ghost predicate ClaimedInRun(env: Env, w: World, ops: seq<Op>, key: Key, c: Claim) {
    exists k :: 0 <= k < |ops| && ClaimedBySigner(env, Before(env, w, ops, k), ops[k], key, c)
  }

  lemma ClaimedEarlier(env: Env, w: World, ops: seq<Op>, key: Key, c: Claim)
    requires ops != [] && ClaimedInRun(env, w, ops[..|ops| - 1], key, c)
    ensures ClaimedInRun(env, w, ops, key, c)
  {
    var init := ops[..|ops| - 1];
    var k :| 0 <= k < |init| && ClaimedBySigner(env, Before(env, w, init, k), init[k], key, c);
    BeforeInit(env, w, ops, k);
    assert ClaimedBySigner(env, Before(env, w, ops, k), ops[k], key, c);
  }

  /** A recorded claim keeps its address and amount over any run, and is never unclaimed; if it becomes claimed,
      some step of the run claimed it by a signature of that address, and the amount was credited then. */
  lemma {:induction false} OnlySignerClaims(env: Env, w: World, ops: seq<Op>, key: Key)
    requires key in w.st.claims
    ensures var st, c := Run(env, w, ops).st, w.st.claims[key];
            && key in st.claims && st.claims[key] == c.(claimed := st.claims[key].claimed)
            && (c.claimed ==> st.claims[key].claimed)
            && (!c.claimed && st.claims[key].claimed ==> ClaimedInRun(env, w, ops, key, c))
  {
    if ops != [] {
      var init, c := ops[..|ops| - 1], w.st.claims[key];
      OnlySignerClaims(env, w, init, key);
      LastStepClaims(env, w, ops, key);
      if !c.claimed && Run(env, w, init).st.claims[key].claimed { ClaimedEarlier(env, w, ops, key, c); }
    }
  }

  /** The last step of a run leaves who recorded a claim, and for how much. */
  lemma LastStepKeepsMint(env: Env, w: World, ops: seq<Op>, key: Key, k: nat)
    requires ops != [] && k < |ops| - 1 && key in Run(env, w, ops[..|ops| - 1]).st.claims
    requires var init := ops[..|ops| - 1];
             MintedByBridge(env, Before(env, w, init, k), init[k], key, Run(env, w, init).st.claims[key].amount)
    ensures key in Run(env, w, ops).st.claims
    ensures MintedByBridge(env, Before(env, w, ops, k), ops[k], key, Run(env, w, ops).st.claims[key].amount)
  {
    var before, op := Run(env, w, ops[..|ops| - 1]), ops[|ops| - 1];
    BeforeInit(env, w, ops, k);
    if Attempt(env, before, op).Ok? { StepKeepsClaim(env, before, op, key); }
  }

  lemma LastStepMints(env: Env, w: World, ops: seq<Op>, key: Key)
    requires ops != [] && key !in Run(env, w, ops[..|ops| - 1]).st.claims && key in Run(env, w, ops).st.claims
    ensures MintedByBridge(env, Before(env, w, ops, |ops| - 1), ops[|ops| - 1], key, Run(env, w, ops).st.claims[key].amount)
  {
    StepMints(env, Run(env, w, ops[..|ops| - 1]), ops[|ops| - 1], key);
  }

  /** Every claim that is there after a run and was not before was recorded in it by the bridge account of its
      network, within the limit of that moment, for the value less the fee of that moment. */
  lemma {:induction false} OnlyBridgeMints(env: Env, w: World, ops: seq<Op>, key: Key)
    requires key !in w.st.claims && key in Run(env, w, ops).st.claims
    ensures exists k :: 0 <= k < |ops|
              && MintedByBridge(env, Before(env, w, ops, k), ops[k], key, Run(env, w, ops).st.claims[key].amount)
  {
    assert ops != [];
    var init := ops[..|ops| - 1];
    if key in Run(env, w, init).st.claims {
      OnlyBridgeMints(env, w, init, key);
      var k :| 0 <= k < |init|
               && MintedByBridge(env, Before(env, w, init, k), init[k], key, Run(env, w, init).st.claims[key].amount);
      LastStepKeepsMint(env, w, ops, key, k);
    } else {
      LastStepMints(env, w, ops, key);
    }
  }

  /** A run goes on from where its first k steps have led. */
  lemma {:induction false} RunFrom(env: Env, w: World, ops: seq<Op>, k: nat, m: nat)
    requires k <= m <= |ops|
    ensures Before(env, Before(env, w, ops, k), ops[k..], m - k) == Before(env, w, ops, m)
    decreases m - k
  {
    if k < m {
      RunFrom(env, w, ops, k, m - 1);
      assert ops[k..][..m - k][..m - k - 1] == ops[k..][..m - 1 - k] && ops[..m][..m - 1] == ops[..m - 1];
    } else {
      assert ops[k..][..0] == [];
    }
  }

  /** A step after the first k of a run that claims the key. */
  ghost predicate ClaimedFrom(env: Env, w: World, ops: seq<Op>, key: Key, c: Claim, k: nat) {
    exists m :: k <= m < |ops| && ClaimedBySigner(env, Before(env, w, ops, m), ops[m], key, c)
  }

  /** Step k of the run recorded the claim of the key, c is that claim at the end; if it had not been sent at once and
      is claimed, a later step has claimed it by a signature of the address that the bridge named. */
  ghost predicate Recorded(env: Env, w: World, ops: seq<Op>, key: Key, c: Claim, k: nat) {
    && k < |ops| && MintedByBridge(env, Before(env, w, ops, k), ops[k], key, c.amount)
    && (ops[k].MintAndSend? ==> c.address == ZERO_ADDRESS && c.claimed)
    && (ops[k].MintClaim? ==>
          && c.address == ops[k].who
          && (c.claimed ==> ClaimedFrom(env, w, ops, key, Claim(ops[k].who, c.amount, false), k + 1)))
  }

  /** The life of a claim: whatever is recorded for a transaction at the end of a run that did not start with it was
      minted by the bridge account of its network for the address that the bridge named, and was paid, if at all, to
      an account for which that address had signed, after it was minted; or it was minted and sent in one step. */
  lemma ClaimLife(env: Env, w: World, ops: seq<Op>, key: Key)
    requires key !in w.st.claims && key in Run(env, w, ops).st.claims
    ensures exists k :: Recorded(env, w, ops, key, Run(env, w, ops).st.claims[key], k)
  {
    OnlyBridgeMints(env, w, ops, key);
    var c := Run(env, w, ops).st.claims[key];
    var k :| 0 <= k < |ops| && MintedByBridge(env, Before(env, w, ops, k), ops[k], key, c.amount);
    AfterMint(env, w, ops, key, k, c.amount);
    ClaimedLater(env, w, ops, key, k + 1, Before(env, w, ops, k + 1).st.claims[key]);
    assert Recorded(env, w, ops, key, c, k);
  }

  lemma RunToEnd(env: Env, w: World, ops: seq<Op>, k: nat)
    requires k <= |ops|
    ensures Run(env, Before(env, w, ops, k), ops[k..]) == Run(env, w, ops)
  {
    RunFrom(env, w, ops, k, |ops|);
    assert ops[..|ops|] == ops && ops[k..][..|ops| - k] == ops[k..];
  }

  lemma StepOfRest(env: Env, w: World, ops: seq<Op>, k: nat, j: nat)
    requires k + j < |ops|
    ensures Before(env, Before(env, w, ops, k), ops[k..], j) == Before(env, w, ops, k + j) && ops[k..][j] == ops[k + j]
  {
    RunFrom(env, w, ops, k, k + j);
  }

  lemma ClaimedInRest(env: Env, w: World, ops: seq<Op>, key: Key, c: Claim, k: nat)
    requires k <= |ops| && ClaimedInRun(env, Before(env, w, ops, k), ops[k..], key, c)
    ensures ClaimedFrom(env, w, ops, key, c, k)
  {
    var after, rest := Before(env, w, ops, k), ops[k..];
    var j :| 0 <= j < |rest| && ClaimedBySigner(env, Before(env, after, rest, j), rest[j], key, c);
    StepOfRest(env, w, ops, k, j);
    assert ClaimedBySigner(env, Before(env, w, ops, k + j), ops[k + j], key, c);
  }

  /** What is recorded after k steps is claimed, if at all, by a later step. */
  lemma ClaimedLater(env: Env, w: World, ops: seq<Op>, key: Key, k: nat, c: Claim)
    requires k <= |ops| && key in Before(env, w, ops, k).st.claims && c == Before(env, w, ops, k).st.claims[key]
    ensures key in Run(env, w, ops).st.claims
    ensures var c' := Run(env, w, ops).st.claims[key];
            && c' == c.(claimed := c'.claimed) && (c.claimed ==> c'.claimed)
            && (!c.claimed && c'.claimed ==> ClaimedFrom(env, w, ops, key, c, k))
  {
    RunToEnd(env, w, ops, k);
    OnlySignerClaims(env, Before(env, w, ops, k), ops[k..], key);
    if !c.claimed && Run(env, w, ops).st.claims[key].claimed { ClaimedInRest(env, w, ops, key, c, k); }
  }

  lemma AfterMint(env: Env, w: World, ops: seq<Op>, key: Key, k: nat, amount: nat)
    requires k < |ops| && MintedByBridge(env, Before(env, w, ops, k), ops[k], key, amount)
    ensures key in Before(env, w, ops, k + 1).st.claims
    ensures Before(env, w, ops, k + 1).st.claims[key]
         == if ops[k].MintClaim? then Claim(ops[k].who, amount, false) else Claim(ZERO_ADDRESS, amount, true)
  {
    assert ops[..k + 1][..k] == ops[..k];
  }

  // ---- the storage as it is edited in place

  class Pallet {
    const env: Env
    var elasticClaims: map<Key, Claim>
    var elasticClaimLimits: map<Network, nat>
    var bridgeFees: map<Network, Fees>
    var bridgeAccounts: map<Network, AccountId>
    var free: Free
    ghost var log: seq<Entry>

    function Stored(): State
      reads this
    {
      State(elasticClaims, elasticClaimLimits, bridgeFees, bridgeAccounts, free)
    }

    ghost function Now(): World
      reads this
    {
      World(Stored(), log)
    }

    constructor (env: Env, st: State)
      ensures this.env == env && Now() == World(st, [])
    {
      this.env := env;
      elasticClaims, elasticClaimLimits, bridgeFees := st.claims, st.limits, st.fees;
      bridgeAccounts, free, log := st.bridges, st.free, [];
    }

    /** Takes a fee out of a value and collects it. */
    method CollectFee(fee: nat)
      modifies this`free
      ensures free == WithFee(env, old(free), fee)
    {
      if fee > 0 {
        free := Deposited(free, env.feeAccount, fee);
      }
    }

    /** The checks both ways of minting make first: the limit, the amount of the claim and the fee. */
    method CheckMintable(from: AccountId, network: Network, tx: TxHash, value: nat)
      returns (result: Result<(nat, nat, nat), Error>)
      ensures match CheckMint(Stored(), from, network, tx, value)
              case Ok(amount) => result == Ok((LimitOf(Stored(), network), amount, FeesOf(Stored(), network).mint))
              case Err(e) => result == Err(e)
    {
      if network !in bridgeAccounts || bridgeAccounts[network] != from {
        return Err(NoPermission);
      }
      if (network, tx) in elasticClaims {
        return Err(AlreadyMinted);
      }
      var limit := if network in elasticClaimLimits then elasticClaimLimits[network] else 0;
      if limit < value {
        return Err(ClaimLimitExceeded);
      }
      var claimAmount, mintFee := value, 0;
      var fee := if network in bridgeFees then bridgeFees[network].mint else 0;
      if fee > 0 {
        if value <= fee {
          return Err(InvalidAmount);
        }
        claimAmount := Monus(value, fee);
        mintFee := fee;
      }
      return Ok((limit, claimAmount, mintFee));
    }

    method DoMintClaim(from: AccountId, network: Network, tx: TxHash, who: Address, value: nat)
      returns (result: Result<nat, Error>)
      modifies this
      ensures match MintedClaim(env, old(Now()), from, network, tx, who, value)
              case Ok(w) => Now() == w && result == CheckMint(old(Stored()), from, network, tx, value)
              case Err(e) => Now() == old(Now()) && result == Err(e)
    {
      var checked := CheckMintable(from, network, tx, value);
      if checked.Err? {
        return Err(checked.error);
      }
      var (limit, claimAmount, mintFee) := checked.value;
      elasticClaims := elasticClaims[(network, tx) := Claim(who, claimAmount, false)];
      elasticClaimLimits := elasticClaimLimits[network := Monus(limit, claimAmount)];
      CollectFee(mintFee);
      log := log + [Minted(network, claimAmount, mintFee)];
      return Ok(claimAmount);
    }

    method DoClaim(network: Network, dest: AccountId, tx: TxHash, sig: Signature)
      returns (result: Result<(Address, nat), Error>)
      modifies this
      ensures match ClaimedBy(env, old(Now()), network, dest, tx, sig)
              case Ok(w) =>
                && Now() == w
                && result == Ok((w.st.claims[(network, tx)].address, w.st.claims[(network, tx)].amount))
              case Err(e) => Now() == old(Now()) && result == Err(e)
    {
      if (network, tx) !in elasticClaims {
        return Err(TxNotMinted);
      }
      var info := elasticClaims[(network, tx)];
      if info.claimed {
        return Err(AlreadyClaimed);
      }
      var signer := env.recover(sig, dest, tx);
      if signer.None? {
        return Err(InvalidEthereumSignature);
      }
      if info.address != signer.value {
        return Err(SignatureNotMatch);
      }
      free := Deposited(free, dest, info.amount);
      elasticClaims := elasticClaims[(network, tx) := Claim(info.address, info.amount, true)];
      log := log + [Credited(network, tx, info.amount)];
      return Ok((signer.value, info.amount));
    }

    method DoBurn(who: AccountId, network: Network, amount: nat) returns (result: Result<nat, Error>)
      modifies this
      ensures match BurnedBy(env, old(Now()), who, network, amount)
              case Ok(w) => Now() == w && result == Ok(amount - FeesOf(old(Stored()), network).burn)
              case Err(e) => Now() == old(Now()) && result == Err(e)
    {
      var burnAmount, burnFee := amount, 0;
      var fee := if network in bridgeFees then bridgeFees[network].burn else 0;
      if fee > 0 {
        if amount <= fee {
          return Err(InvalidAmount);
        }
        burnAmount := Monus(amount, fee);
        burnFee := fee;
      }
      if !CanWithdraw(env, free, who, amount) {
        return Err(WithdrawFailed);
      }
      free := Withdrawn(free, who, amount);
      CollectFee(burnFee);
      log := log + [Burned(amount, burnFee)];
      return Ok(burnAmount);
    }

    method DoMintAndSendClaim(from: AccountId, network: Network, tx: TxHash, dest: AccountId, value: nat)
      returns (result: Result<nat, Error>)
      modifies this
      ensures match MintedAndSent(env, old(Now()), from, network, tx, dest, value)
              case Ok(w) => Now() == w && result == CheckMint(old(Stored()), from, network, tx, value)
              case Err(e) => Now() == old(Now()) && result == Err(e)
    {
      var checked := CheckMintable(from, network, tx, value);
      if checked.Err? {
        return Err(checked.error);
      }
      var (limit, claimAmount, mintFee) := checked.value;
      free := Deposited(free, dest, claimAmount);
      elasticClaims := elasticClaims[(network, tx) := Claim(ZERO_ADDRESS, claimAmount, true)];
      elasticClaimLimits := elasticClaimLimits[network := Monus(limit, claimAmount)];
      CollectFee(mintFee);
      log := log + [Minted(network, claimAmount, mintFee), Credited(network, tx, claimAmount)];
      return Ok(claimAmount);
    }
  }
}
