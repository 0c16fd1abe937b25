/**
 The slashing storage and the operations that edit it in place. Each is proved against the function of
 the same step in Slashing; the history is a ghost field.
 */
module SlashingPallet {
  import opened Arith
  import opened Options
  import opened SpanGeometry
  import opened Slashing
  import opened SlashingInvariants

  class Pallet {
    /** The library's product of a Perbill and a balance. */
    const mul: (nat, nat) -> nat

    var slashingSpans: map<AccountId, Spans>
    var spanSlash: Records
    var validatorSlashInEra: map<(nat, AccountId), (Perbill, nat)>
    var nominatorSlashInEra: map<(nat, AccountId), nat>
    ghost var log: seq<Entry>

    function Stored(): State
      reads this
    {
      State(slashingSpans, spanSlash, validatorSlashInEra, nominatorSlashInEra)
    }

    ghost function Now(): World
      reads this
    {
      World(Stored(), log)
    }

    constructor (mul: (nat, nat) -> nat)
      ensures this.mul == mul && Now() == EMPTY && Inv(Now(), 0)
    {
      this.mul := mul;
      slashingSpans, spanSlash, validatorSlashInEra, nominatorSlashInEra := map[], map[], map[], map[];
      log := [];
      new;
      RunInv(mul, 0, []);
    }

    /** Computes the slash of a validator and its nominators and updates the metadata. */
    method ComputeSlash(r: Report, ghost w: nat) returns (unapplied: Option<UnappliedSlash>)
      requires Inv(Now(), w) && w <= r.windowStart <= r.slashEra
      modifies this
      ensures Outcome(Now(), unapplied) == Slashing.ComputeSlash(mul, old(Now()), r)
      ensures Inv(Now(), r.windowStart)
    {
      ComputeSlashInv(mul, Now(), r, w);
      var ownSlash := mul(r.slash, r.exposure.own);
      if mul(r.slash, r.exposure.total) == 0 {
        TouchReady(Now(), r, r.stash, w);
        KickOutIfRecent(r);
        return None;
      }
      var key := (r.slashEra, r.stash);
      var prior: Perbill := 0;
      if key in validatorSlashInEra { prior := validatorSlashInEra[key].0; }
      if r.slash > prior {
        unapplied := SlashAll(r, ownSlash, prior, w);
        AcceptedOutcome(mul, old(Now()), r, Now(), unapplied.value);
      } else {
        return None;
      }
    }

    /** A new maximum for the era: slash the validator, then its nominators. */
    method SlashAll(r: Report, ownSlash: nat, prior: Perbill, ghost w: nat) returns (unapplied: Option<UnappliedSlash>)
      requires Inv(Now(), w) && w <= r.windowStart <= r.slashEra
      requires mul(r.slash, r.exposure.total) != 0 && ownSlash == mul(r.slash, r.exposure.own)
      requires prior == PriorSlash(Stored(), r.slashEra, r.stash) && r.slash > prior
      modifies this
      ensures unapplied.Some? && AcceptedAs(mul, old(Now()), r, Now(), unapplied.value)
    {
      validatorSlashInEra := validatorSlashInEra[(r.slashEra, r.stash) := (r.slash, ownSlash)];
      assert Stored() == WithValidatorSlash(old(Stored()), r, ownSlash);
      InvReads(old(Now()), Stored(), w, w);
      var slashed, paid := SlashStash(r, r.stash, ownSlash, w);
      var others, payout := SlashNominators(r, prior);
      return Some(UnappliedSlash(r.stash, slashed, others, [], paid + payout));
    }

    /** Presents a slash to one stash of a state that satisfies the invariant. */
    method SlashStash(r: Report, stash: AccountId, slash: nat, ghost w: nat) returns (slashed: nat, paid: nat)
      requires Inv(Now(), w) && w <= r.windowStart <= r.slashEra
      modifies this
      ensures Touched(Now(), slashed, paid) == Touch(mul, old(Now()), r, stash, slash)
      ensures Inv(Now(), r.windowStart)
    {
      TouchReady(Now(), r, stash, w);
      TouchInv(mul, Now(), r, stash, slash, w);
      slashed, paid := TouchStash(r, stash, slash);
    }

    /** Ends the ongoing span if it was hit, and leaves the scope of the inspected spans. */
    method CloseSpans(inspecting: InspectingSpans, now: nat, target: Option<int>)
      requires inspecting.pallet == this && target.Some? && Geometry(inspecting.spans.Value())
      modifies this`slashingSpans, this`spanSlash, inspecting`dirty, inspecting.spans
      ensures Stored() == Finished(old(Stored()), inspecting.stash, old(inspecting.spans.Value()), target.value, now,
                                   inspecting.windowStart, old(inspecting.dirty))
    {
      EndSpanGeometry(inspecting.spans.Value(), now);
      var index := inspecting.SpanIndex();
      if target == Some(index) {
        inspecting.EndSpan(now);
      }
      inspecting.Drop();
    }

    /** Opens the spans of a stash, presents a slash to them, ends the hit span and closes them again. */
    method TouchStash(r: Report, stash: AccountId, slash: nat) returns (slashed: nat, paid: nat)
      requires Geometry(Fetched(Stored(), stash, r.windowStart))
      requires EraSpan(Fetched(Stored(), stash, r.windowStart), r.slashEra).Some?
      modifies this
      ensures Touched(Now(), slashed, paid) == Touch(mul, old(Now()), r, stash, slash)
    {
      var inspecting := new InspectingSpans.FetchSpans(this, stash, r.windowStart, r.rewardProportion);
      ghost var s, st := inspecting.spans.Value(), Stored();
      ghost var i := EraSpan(s, r.slashEra).value.index;
      var target := inspecting.CompareAndUpdateSpanSlash(r.slashEra, slash);
      ghost var stamped, written, changed := inspecting.spans.Value(), Stored(), inspecting.dirty;
      slashed, paid := inspecting.slashOf, inspecting.paidOut;
      CloseSpans(inspecting, r.now, target);
      TouchAt(mul, old(Now()), r, stash, slash, s, st, i, written, stamped, changed);
      log := log + [Charge(stash, i, slash, slashed, paid)];
    }

    /** Slashes the nominators in the order of the exposure. */
    method SlashNominators(r: Report, prior: Perbill) returns (slashed: seq<(AccountId, nat)>, payout: nat)
      requires Inv(Now(), r.windowStart) && r.windowStart <= r.slashEra
      modifies this
      ensures Nominated(Now(), slashed, payout)
           == Slashing.SlashNominators(mul, old(Now()), r, prior, r.exposure.others)
    {
      slashed, payout := [], 0;
      var others := r.exposure.others;
      var k := 0;
      while k < |others|
        invariant 0 <= k <= |others| && Inv(Now(), r.windowStart)
        invariant Nominated(Now(), slashed, payout)
               == Slashing.SlashNominators(mul, old(Now()), r, prior, others[..k])
      {
        NominatorsStep(mul, old(Now()), r, prior, others, k);
        var nomSlashed, paid := SlashNominator(r, prior, others[k]);
        slashed := slashed + [(others[k].who, nomSlashed)];
        payout := payout + paid;
        k := k + 1;
      }
      assert others[..k] == others;
    }

    /** Raises the era slash of one nominator and presents it to the nominator's spans. */
    method SlashNominator(r: Report, prior: Perbill, nominator: Individual) returns (nomSlashed: nat, paid: nat)
      requires Inv(Now(), r.windowStart) && r.windowStart <= r.slashEra
      modifies this
      ensures Touched(Now(), nomSlashed, paid) == NominatorTouched(mul, old(Now()), r, prior, nominator)
      ensures Inv(Now(), r.windowStart)
    {
      var ownSlashPrior := mul(prior, nominator.value);
      var ownSlashByValidator := mul(r.slash, nominator.value);
      var difference := Monus(ownSlashByValidator, ownSlashPrior);
      var key := (r.slashEra, nominator.who);
      var eraSlash := if key in nominatorSlashInEra then nominatorSlashInEra[key] else 0;
      eraSlash := eraSlash + difference;
      nominatorSlashInEra := nominatorSlashInEra[key := eraSlash];
      assert eraSlash == RaisedEraSlash(mul, old(Stored()), r, prior, nominator);
      assert Stored() == WithNominatorSlash(old(Stored()), r.slashEra, nominator.who, eraSlash);
      InvReads(old(Now()), Stored(), r.windowStart, r.windowStart);
      nomSlashed, paid := SlashStash(r, nominator.who, eraSlash, r.windowStart);
    }

    /** No slash, but the span ends if the offence is in the current one. */
    method KickOutIfRecent(r: Report)
      requires Geometry(Fetched(Stored(), r.stash, r.windowStart))
      modifies this
      ensures Stored() == KickedOut(old(Stored()), r) && log == old(log)
    {
      var inspecting := new InspectingSpans.FetchSpans(this, r.stash, r.windowStart, r.rewardProportion);
      ghost var s := inspecting.spans.Value();
      var span := inspecting.FindEraSpan(r.slashEra);
      var index := inspecting.SpanIndex();
      if span.Some? && span.value.index == index {
        inspecting.EndSpan(r.now);
      }
      EndSpanGeometry(s, r.now);
      inspecting.Drop();
    }

    /** Forgets the maxima of an obsolete era. */
    method ClearEraMetadata(obsoleteEra: nat)
      modifies this
      ensures Now() == World(EraCleared(old(Stored()), obsoleteEra), old(log))
    {
      validatorSlashInEra := map k | k in validatorSlashInEra && k.0 != obsoleteEra :: validatorSlashInEra[k];
      nominatorSlashInEra := map k | k in nominatorSlashInEra && k.0 != obsoleteEra :: nominatorSlashInEra[k];
    }

    /** Removes the metadata of a dead stash; on success none of its span records is left. */
    method ClearStashMetadata(stash: AccountId, numSlashingSpans: nat,
                              ghost w: nat) returns (result: Result<(), ClearError>)
      requires Inv(Now(), w)
      modifies this
      ensures result.Ok? <==> StashCleared(old(Now()), stash, numSlashingSpans).Ok?
      ensures Now() == if result.Ok? then StashCleared(old(Now()), stash, numSlashingSpans).value else old(Now())
      ensures result.Ok? ==> forall i :: (stash, i) !in spanSlash
      ensures Inv(Now(), w)
    {
      ClearLeavesNoOrphan(Now(), stash, numSlashingSpans, w);
      if stash !in slashingSpans {
        return Ok(());
      }
      assert StashInv(Now(), stash, w);
      var record := new SlashingSpans(slashingSpans[stash]);
      var spans := record.Iter();
      if numSlashingSpans < |spans| {
        return Err(IncorrectSlashingSpans);
      }
      slashingSpans := slashingSpans - {stash};
      var k := 0;
      while k < |spans|
        invariant 0 <= k <= |spans|
        invariant spanSlash == WithoutSpans(old(spanSlash), stash, spans[..k])
        invariant Stored() == old(Stored()).(spans := old(slashingSpans) - {stash}, records := spanSlash)
        invariant log == old(log)
      {
        spanSlash := spanSlash - {(stash, spans[k].index)};
        WithoutOneMore(old(spanSlash), stash, spans, k);
        k := k + 1;
      }
      assert spans[..k] == spans;
      log := log + [Reset(stash)];
      return Ok(());
    }
  }

  lemma NominatorsStep(mul: (nat, nat) -> nat, world: World, r: Report, prior: Perbill, others: seq<Individual>, k: nat)
    requires k < |others|
    ensures var before := Slashing.SlashNominators(mul, world, r, prior, others[..k]);
            var t := NominatorTouched(mul, before.world, r, prior, others[k]);
            Slashing.SlashNominators(mul, world, r, prior, others[..k + 1])
              == Nominated(t.world, before.slashed + [(others[k].who, t.issued)], before.payout + t.paid)
  {
    assert others[..k + 1][..k] == others[..k];
  }

  lemma ListedPrefix(spans: seq<SlashingSpan>, k: nat, i: int)
    requires k < |spans|
    ensures Listed(spans[..k + 1], i) <==> Listed(spans[..k], i) || spans[k].index == i
  {
    if Listed(spans[..k], i) {
      var j :| 0 <= j < k && spans[..k][j].index == i;
      assert spans[..k + 1][j].index == i;
    }
    if Listed(spans[..k + 1], i) {
      var j :| 0 <= j < k + 1 && spans[..k + 1][j].index == i;
      if j < k { assert spans[..k][j].index == i; }
    }
    assert spans[..k + 1][k] == spans[k];
  }

  lemma WithoutOneMore(records: Records, stash: AccountId, spans: seq<SlashingSpan>, k: nat)
    requires k < |spans|
    ensures WithoutSpans(records, stash, spans[..k + 1])
         == WithoutSpans(records, stash, spans[..k]) - {(stash, spans[k].index)}
  {
    forall i
      ensures Listed(spans[..k + 1], i) <==> Listed(spans[..k], i) || spans[k].index == i
    {
      ListedPrefix(spans, k, i);
    }
  }

  /** What is left to do once a slash has been compared with the record of the span i that it hits. */
  lemma TouchAt(mul: (nat, nat) -> nat, world: World, r: Report, stash: AccountId, slash: nat, s: Spans, st: State,
                i: int,
                written: State, stamped: Spans, changed: bool)
    requires s == Fetched(world.st, stash, r.windowStart) && st == WithFetched(world.st, stash, r.windowStart)
    requires EraSpan(s, r.slashEra).Some? && EraSpan(s, r.slashEra).value.index == i
    requires var rec := RecordOf(st.records, stash, i);
             var rec' := Compared(mul, r.rewardProportion, rec, slash);
             && written == WithRecord(st, stash, i, rec') && stamped == Stamped(s, rec, r.slashEra, slash)
             && changed == (rec' != rec)
    ensures var rec := RecordOf(st.records, stash, i);
            var issued, paid := Monus(slash, rec.slashed), Reward(mul, r.rewardProportion, rec, slash);
            Touch(mul, world, r, stash, slash)
            == Touched(World(Finished(written, stash, stamped, i, r.now, r.windowStart, changed),
                             world.log + [Charge(stash, i, slash, issued, paid)]), issued, paid)
  {
  }

  /** The spans of one stash while they are looked at; `Drop` writes them back if anything changed. */
  class InspectingSpans {
    const pallet: Pallet
    const stash: AccountId
    const windowStart: nat
    const rewardProportion: Perbill
    const spans: SlashingSpans
    var dirty: bool
    var paidOut: nat
    var slashOf: nat

    /** Reads the record of a stash, creating it if it is not there. */
    constructor FetchSpans(pallet: Pallet, stash: AccountId, windowStart: nat, rewardProportion: Perbill)
      modifies pallet
      ensures this.pallet == pallet && this.stash == stash && this.windowStart == windowStart
      ensures this.rewardProportion == rewardProportion
      ensures fresh(spans) && spans.Value() == Fetched(old(pallet.Stored()), stash, windowStart)
      ensures pallet.Stored() == WithFetched(old(pallet.Stored()), stash, windowStart)
      ensures pallet.log == old(pallet.log)
      ensures !dirty && paidOut == 0 && slashOf == 0
    {
      this.pallet := pallet;
      this.stash := stash;
      this.windowStart := windowStart;
      this.rewardProportion := rewardProportion;
      dirty, paidOut, slashOf := false, 0, 0;
      var record;
      if stash in pallet.slashingSpans {
        record := new SlashingSpans(pallet.slashingSpans[stash]);
      } else {
        record := new SlashingSpans.New(windowStart);
        pallet.slashingSpans := pallet.slashingSpans[stash := record.Value()];
      }
      spans := record;
    }

    method SpanIndex() returns (index: nat)
      ensures index == spans.spanIndex
    {
      index := spans.spanIndex;
    }

    method EndSpan(now: nat)
      modifies this`dirty, spans
      ensures spans.Value() == EndedSpan(old(spans.Value()), now)
      ensures dirty <==> old(dirty) || spans.Value() != old(spans.Value())
    {
      var started := spans.EndSpan(now);
      dirty := started || dirty;
    }

    method AddSlash(amount: nat, slashEra: nat)
      modifies this`slashOf, spans`lastNonzeroSlash
      ensures slashOf == old(slashOf) + amount
      ensures spans.lastNonzeroSlash == Max(old(spans.lastNonzeroSlash), slashEra)
    {
      slashOf := slashOf + amount;
      spans.lastNonzeroSlash := Max(spans.lastNonzeroSlash, slashEra);
    }

    /** The span an era falls in, if covered. */
    method FindEraSpan(era: nat) returns (span: Option<SlashingSpan>)
      requires Geometry(spans.Value())
      ensures span == EraSpan(spans.Value(), era)
    {
      var list := spans.Iter();
      var k := 0;
      assert list[0..] == list;
      while k < |list|
        invariant 0 <= k <= |list|
        invariant FirstContaining(list[k..], era) == FirstContaining(list, era)
      {
        if list[k].ContainsEra(era) {
          return Some(list[k]);
        }
        assert list[k..][1..] == list[k + 1..];
        k := k + 1;
      }
      assert list[k..] == [];
      return None;
    }

    /** Compares a slash with the span's maximum; a larger one is charged for the difference. Returns the
        index of the span. */
    method CompareAndUpdateSpanSlash(slashEra: nat, slash: nat) returns (target: Option<int>)
      requires Geometry(spans.Value())
      modifies this, spans`lastNonzeroSlash, pallet`spanSlash
      ensures var span := EraSpan(old(spans.Value()), slashEra);
              if span.None? then
                target.None? && spans.Value() == old(spans.Value()) && pallet.Stored() == old(pallet.Stored())
                && dirty == old(dirty) && paidOut == old(paidOut) && slashOf == old(slashOf)
              else
                var rec := RecordOf(old(pallet.spanSlash), stash, span.value.index);
                var rec' := Compared(pallet.mul, rewardProportion, rec, slash);
                && target == Some(span.value.index)
                && spans.Value() == Stamped(old(spans.Value()), rec, slashEra, slash)
                && pallet.Stored() == WithRecord(old(pallet.Stored()), stash, span.value.index, rec')
                && (dirty <==> old(dirty) || rec' != rec)
                && paidOut == old(paidOut) + Reward(pallet.mul, rewardProportion, rec, slash)
                && slashOf == old(slashOf) + Monus(slash, rec.slashed)
    {
      var span := FindEraSpan(slashEra);
      if span.None? {
        return None;
      }
      var key := (stash, span.value.index);
      var rec := if key in pallet.spanSlash then pallet.spanSlash[key] else SpanRecord(0, 0);
      ghost var oldRec := rec;
      var changed := false;
      var reward;
      if rec.slashed < slash {
        var difference := slash - rec.slashed;
        rec := rec.(slashed := slash);
        reward := pallet.mul(REWARD_F1, Monus(pallet.mul(rewardProportion, slash), rec.paidOut));
        AddSlash(difference, slashEra);
        changed := true;
      } else if rec.slashed == slash {
        reward := pallet.mul(REWARD_F1, Monus(pallet.mul(rewardProportion, slash), rec.paidOut));
      } else {
        reward := 0;
      }
      if reward != 0 {
        changed := true;
        rec := rec.(paidOut := rec.paidOut + reward);
        paidOut := paidOut + reward;
      }
      assert rec == Compared(pallet.mul, rewardProportion, oldRec, slash);
      if changed {
        dirty := true;
        pallet.spanSlash := pallet.spanSlash[key := rec];
      }
      return Some(span.value.index);
    }

    /** Leaving scope: a modified record is pruned and stored, and the dropped spans' records removed. */
    method Drop()
      requires Geometry(spans.Value())
      modifies pallet`slashingSpans, pallet`spanSlash, spans
      ensures pallet.Stored() == if dirty then Dropped(old(pallet.Stored()), stash, old(spans.Value()), windowStart)
                                 else old(pallet.Stored())
    {
      if !dirty {
        return;
      }
      var pruned := spans.Prune(windowStart);
      if pruned.Some? {
        var start, end := pruned.value.0, pruned.value.1;
        var i := start;
        while i < end
          invariant start <= i
          invariant i <= end || end < start
          invariant pallet.spanSlash == WithoutRange(old(pallet.spanSlash), stash, Some((start, i)))
          invariant pallet.slashingSpans == old(pallet.slashingSpans)
          invariant spans.Value() == PrunedSpans(old(spans.Value()), windowStart)
        {
          pallet.spanSlash := pallet.spanSlash - {(stash, i)};
          i := i + 1;
        }
        assert WithoutRange(old(pallet.spanSlash), stash, Some((start, i)))
            == WithoutRange(old(pallet.spanSlash), stash, Some((start, end)));
      } else {
        assert WithoutRange(old(pallet.spanSlash), stash, None) == old(pallet.spanSlash);
      }
      pallet.slashingSpans := pallet.slashingSpans[stash := spans.Value()];
    }
  }
}
