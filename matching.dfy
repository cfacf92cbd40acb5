/**
 * The Gale-Shapley loop of A1/matching.py: residents propose to hospitals
 * in their order of preference, and a hospital holds on to the best
 * resident that has proposed to it so far.
 *
 * Reading the input file is not part of this model: the preference tables
 * arrive as a `Prefs` value. Names are strings, as the source splits them
 * out of the file.
 */
module Matching {
  import opened Wrappers

  type Resident = string
  type Hospital = string

  /**
   * The input: `n` from the first line, each resident's list of hospitals
   * (`residents`), each hospital's ranking of residents (`hospitals`), and
   * the residents in the order the file lists them (`residents.keys()`).
   */
  datatype Prefs = Prefs(
    n: int,
    order: seq<Resident>,
    residents: map<Resident, seq<Hospital>>,
    hospitals: map<Hospital, seq<Resident>>)
  {
    /** `order` holds each key of the `residents` dict exactly once. */
    predicate Keyed()
    {
      && Distinct(order)
      && (forall r :: r in residents ==> r in order)
      && (forall i :: 0 <= i < |order| ==> order[i] in residents)
    }
  }

  /**
   * The input the algorithm is meant for: n residents and n hospitals,
   * every resident ranks every hospital once, and every hospital ranks
   * every resident.
   */
  ghost predicate Complete(p: Prefs)
  {
    && p.Keyed()
    && p.n == |p.order|
    && |p.hospitals.Keys| == p.n
    && (forall r :: r in p.residents ==>
          |p.residents[r]| == p.n && Distinct(p.residents[r])
          && forall i :: 0 <= i < p.n ==> p.residents[r][i] in p.hospitals)
    && (forall h, r :: h in p.hospitals && r in p.residents ==> r in p.hospitals[h])
  }

  predicate Distinct<T(==)>(s: seq<T>)
  {
    forall i, j :: 0 <= i < j < |s| ==> s[i] != s[j]
  }

  /** Python's `list.index`, with |s| standing for a missing value. */
  function IndexOf<T(==)>(s: seq<T>, x: T): (i: nat)
    ensures i <= |s| && (i < |s| <==> x in s)
    ensures i < |s| ==> s[i] == x
  {
    if s == [] then 0
    else if s[0] == x then 0
    else 1 + IndexOf(s[1..], x)
  }

  /** `list.index` finds the first occurrence. */
  lemma {:induction false} IndexOfFirst<T>(s: seq<T>, x: T, j: nat)
    requires j < |s| && s[j] == x
    ensures IndexOf(s, x) <= j
  {
    if s[0] != x {
      IndexOfFirst(s[1..], x, j - 1);
    }
  }

  /** `hospitals[h].index(r)`: the lower, the more h wants r. */
  function Rank(p: Prefs, h: Hospital, r: Resident): nat
  {
    if h in p.hospitals then IndexOf(p.hospitals[h], r) else 0
  }

  /** `proposals[r]`, the number of proposals r has made, 0 before the first. */
  function Get(proposals: map<Resident, nat>, r: Resident): int
  {
    if r in proposals then proposals[r] else 0
  }

  // ---------------------------------------------------------------------------
  // One proposal
  // ---------------------------------------------------------------------------

  /** The three variables the loop updates. */
  datatype State = State(
    free: seq<Resident>,
    proposals: map<Resident, nat>,
    matches: map<Hospital, Resident>)

  /**
   * The next proposal of the first free resident raises an error: its list
   * is too short (IndexError), or the hospital is already matched and then
   * is not a key of `hospitals` (KeyError) or does not rank one of the two
   * residents (ValueError).
   */
  function Fails(p: Prefs, s: State): bool
    requires s.free != [] && s.free[0] in p.residents
  {
    var r := s.free[0];
    var index := Get(s.proposals, r);
    index < p.n &&
    (index >= |p.residents[r]| ||
     var h := p.residents[r][index];
     h in s.matches &&
     (h !in p.hospitals || r !in p.hospitals[h] || s.matches[h] !in p.hospitals[h]))
  }

  /**
   * The state after one pass of the loop: the first free resident leaves
   * the list; while it has proposed fewer than n times it proposes to the
   * next hospital on its list, which takes it if free, swaps to it if it
   * ranks it strictly higher than its partner (who becomes free again), and
   * otherwise sends it back to the end of the list.
   */
  function Next(p: Prefs, s: State): State
    requires s.free != [] && s.free[0] in p.residents && !Fails(p, s)
  {
    var r := s.free[0];
    var rest := s.free[1..];
    var index := Get(s.proposals, r);
    if index >= p.n then State(rest, s.proposals[r := index], s.matches)
    else
      var h := p.residents[r][index];
      var proposals := s.proposals[r := index + 1];
      if h !in s.matches then State(rest, proposals, s.matches[h := r])
      else if Rank(p, h, r) < Rank(p, h, s.matches[h]) then
        State(rest + [s.matches[h]], proposals, s.matches[h := r])
      else State(rest + [r], proposals, s.matches)
  }

  // ---------------------------------------------------------------------------
  // The loop invariant
  // ---------------------------------------------------------------------------

  /** The free list holds distinct residents. */
  ghost predicate FreeOk(p: Prefs, s: State)
  {
    Distinct(s.free) && forall i :: 0 <= i < |s.free| ==> s.free[i] in p.residents
  }

  /** Nobody proposes more than n times, or past the end of its list. */
  ghost predicate ProposalsOk(p: Prefs, s: State)
  {
    forall r :: r in s.proposals ==>
      r in p.residents && s.proposals[r] <= |p.residents[r]|
      && (s.proposals[r] <= p.n || s.proposals[r] == 0)
  }

  /**
   * A matched resident is matched to the last hospital it proposed to, is
   * not free, and is matched to no other hospital.
   */
  ghost predicate MatchesOk(p: Prefs, s: State)
  {
    Partnered(p, s) && Injective(s.matches)
  }

  /** A matched resident is free of the list and holds its latest proposal. */
  ghost predicate Partnered(p: Prefs, s: State)
  {
    forall h :: h in s.matches ==>
          var r := s.matches[h];
          && r in p.residents && r in s.proposals && r !in s.free
          && LastProposal(p, s.proposals, r, h)
  }

  /** h is the hospital of r's latest proposal. */
  ghost predicate LastProposal(p: Prefs, proposals: map<Resident, nat>, r: Resident, h: Hospital)
    requires r in p.residents && r in proposals
  {
    1 <= proposals[r] <= |p.residents[r]| && p.residents[r][proposals[r] - 1] == h
  }

  /** No resident is the partner of two hospitals. */
  ghost predicate Injective(m: map<Hospital, Resident>)
  {
    forall h1, h2 :: h1 in m && h2 in m && m[h1] == m[h2] ==> h1 == h2
  }

  /**
   * Every resident is free, matched, or has made all n proposals its list
   * allows.
   */
  ghost predicate Accounted(p: Prefs, s: State)
  {
    forall r :: r in p.residents ==>
      r in s.free || r in s.matches.Values || (r in s.proposals && s.proposals[r] >= p.n)
  }

  /**
   * The invariant of the source's comments: every hospital a resident has
   * proposed to holds a resident it ranks at least as high.
   */
  ghost predicate Proposed(p: Prefs, s: State)
  {
    forall r, i :: r in s.proposals && r in p.residents && 0 <= i < s.proposals[r] && i < |p.residents[r]| ==>
      var h := p.residents[r][i];
      h in s.matches && Rank(p, h, s.matches[h]) <= Rank(p, h, r)
  }

  /** The loop invariant. */
  ghost predicate Inv(p: Prefs, s: State)
  {
    FreeOk(p, s) && ProposalsOk(p, s) && MatchesOk(p, s) && Accounted(p, s) && Proposed(p, s)
  }

  /** Before the loop every resident is free and nothing is recorded. */
  lemma InvInit(p: Prefs)
    requires p.Keyed()
    ensures Inv(p, State(p.order, map[], map[]))
  {
  }

  /** A proposal that does not fail keeps the invariant. */
  lemma NextInv(p: Prefs, s: State)
    requires Inv(p, s) && s.free != [] && !Fails(p, s)
    ensures Inv(p, Next(p, s))
  {
    NextFreeOk(p, s);
    NextProposalsOk(p, s);
    NextMatchesOk(p, s);
    NextAccounted(p, s);
    NextProposed(p, s);
  }

  /** The free list stays a list of distinct residents. */
  lemma NextFreeOk(p: Prefs, s: State)
    requires FreeOk(p, s) && MatchesOk(p, s) && s.free != [] && !Fails(p, s)
    ensures FreeOk(p, Next(p, s))
  {
    var r := s.free[0];
    var index := Get(s.proposals, r);
    DistinctTail(s.free);
    TailMembers(s.free);
    if index < p.n {
      var h := p.residents[r][index];
      if h in s.matches && Rank(p, h, r) < Rank(p, h, s.matches[h]) {
        DistinctSnoc(s.free[1..], s.matches[h]);
        SnocMembers(s.free[1..], s.matches[h]);
      } else if h in s.matches {
        DistinctSnoc(s.free[1..], r);
        SnocMembers(s.free[1..], r);
      }
    }
  }

  /** A counter only grows while below n, and stays within the list. */
  lemma NextProposalsOk(p: Prefs, s: State)
    requires FreeOk(p, s) && ProposalsOk(p, s) && s.free != [] && !Fails(p, s)
    ensures ProposalsOk(p, Next(p, s))
  {
  }

  /** Partners stay off the free list, on their latest proposal, one per hospital. */
  lemma NextMatchesOk(p: Prefs, s: State)
    requires FreeOk(p, s) && MatchesOk(p, s) && s.free != [] && !Fails(p, s)
    ensures MatchesOk(p, Next(p, s))
  {
    NextPartnered(p, s);
    NextInjective(p, s);
  }

  /** The proposer is free, hence nobody's partner, so it can take a hospital. */
  lemma NextInjective(p: Prefs, s: State)
    requires FreeOk(p, s) && MatchesOk(p, s) && s.free != [] && !Fails(p, s)
    ensures Injective(Next(p, s).matches)
  {
    assert s.free[0] !in s.matches.Values;
  }

  /** Partners stay off the free list and on their latest proposal. */
  lemma NextPartnered(p: Prefs, s: State)
    requires FreeOk(p, s) && MatchesOk(p, s) && s.free != [] && !Fails(p, s)
    ensures Partnered(p, Next(p, s))
  {
    TailMembers(s.free);
    assert s.free[0] !in s.matches.Values;
    if Get(s.proposals, s.free[0]) < p.n {
      ProposalPartnered(p, s);
    } else {
      var t := Next(p, s);
      assert t.free == s.free[1..];
      forall g | g in t.matches
        ensures t.matches[g] in t.proposals && t.proposals[t.matches[g]] == s.proposals[t.matches[g]]
      {
        assert s.matches[g] in s.matches.Values;
      }
    }
  }

  /** `NextPartnered` when the proposer still has proposals to make. */
  lemma ProposalPartnered(p: Prefs, s: State)
    requires MatchesOk(p, s) && s.free != [] && s.free[0] in p.residents && !Fails(p, s)
    requires Get(s.proposals, s.free[0]) < p.n && s.free[0] !in s.matches.Values
    requires forall x :: x in s.free[1..] <==> x in s.free && x != s.free[0]
    ensures Partnered(p, Next(p, s))
  {
    var r := s.free[0];
    var index := Get(s.proposals, r);
    var t := Next(p, s);
    var h := p.residents[r][index];
    var c := if h in s.matches && Rank(p, h, r) < Rank(p, h, s.matches[h]) then s.matches[h] else r;
    SnocMembers(s.free[1..], c);
    assert t.free == s.free[1..] || t.free == s.free[1..] + [c];
    forall g | g in t.matches && t.matches[g] != r
      ensures t.matches[g] == s.matches[g] && t.matches[g] != c && t.matches[g] in t.proposals
      ensures LastProposal(p, t.proposals, t.matches[g], g)
    {
      var x := s.matches[g];
      assert x in s.matches.Values;
      assert t.proposals[x] == s.proposals[x];
      assert LastProposal(p, s.proposals, x, g);
    }
    if t.matches[h] == r {
      assert LastProposal(p, t.proposals, r, h);
      assert r !in t.free;
    }
  }

  /** Nobody falls out of the free list unmatched with proposals left. */
  lemma NextAccounted(p: Prefs, s: State)
    requires FreeOk(p, s) && MatchesOk(p, s) && Accounted(p, s) && s.free != [] && !Fails(p, s)
    ensures Accounted(p, Next(p, s))
  {
    TailMembers(s.free);
    if Get(s.proposals, s.free[0]) < p.n {
      ProposalAccounted(p, s);
    } else {
      var r := s.free[0];
      var t := Next(p, s);
      forall x | x in p.residents && x != r && x in s.matches.Values
        ensures x in t.matches.Values
      {
        var g :| g in s.matches && s.matches[g] == x;
        assert t.matches[g] == x;
      }
    }
  }

  /** `NextAccounted` when the proposer still has proposals to make. */
  lemma ProposalAccounted(p: Prefs, s: State)
    requires Accounted(p, s) && s.free != [] && s.free[0] in p.residents && !Fails(p, s)
    requires Get(s.proposals, s.free[0]) < p.n
    requires forall x :: x in s.free[1..] <==> x in s.free && x != s.free[0]
    ensures Accounted(p, Next(p, s))
  {
    var r := s.free[0];
    var index := Get(s.proposals, r);
    var t := Next(p, s);
    var h := p.residents[r][index];
    var c := if h in s.matches then s.matches[h] else r;
    SnocMembers(s.free[1..], c);
    forall x | x in p.residents && x != r && x != c && x in s.matches.Values
      ensures x in t.matches.Values
    {
      var g :| g in s.matches && s.matches[g] == x;
      assert t.matches[g] == x;
    }
    assert t.matches[h] == r || c == r || t.free == s.free[1..] + [r];
  }

  /** A hospital only trades up, so it still ranks its partner above every earlier proposer. */
  lemma NextProposed(p: Prefs, s: State)
    requires Proposed(p, s) && s.free != [] && s.free[0] in p.residents && !Fails(p, s)
    ensures Proposed(p, Next(p, s))
  {
    var r := s.free[0];
    var index := Get(s.proposals, r);
    var t := Next(p, s);
    forall x, i | x in t.proposals && x in p.residents && 0 <= i < t.proposals[x] && i < |p.residents[x]|
      ensures p.residents[x][i] in t.matches
      ensures Rank(p, p.residents[x][i], t.matches[p.residents[x][i]]) <= Rank(p, p.residents[x][i], x)
    {
      if x == r && i == index {
      } else {
        assert i < s.proposals[x];
      }
    }
  }

  // ---------------------------------------------------------------------------
  // Progress: each pass makes one proposal or retires one resident
  // ---------------------------------------------------------------------------

  /** The number of proposals the loop allows each resident. */
  function Max0(n: int): nat
  {
    if n > 0 then n else 0
  }

  /** The number of proposals made so far, summed over the residents. */
  function Made(order: seq<Resident>, proposals: map<Resident, nat>): nat
  {
    if order == [] then 0 else Get(proposals, order[0]) + Made(order[1..], proposals)
  }

  /** Changing one resident's counter changes the sum by the difference. */
  lemma {:induction false} MadeUpdate(order: seq<Resident>, proposals: map<Resident, nat>, r: Resident, v: nat)
    requires Distinct(order)
    ensures r in order ==> Made(order, proposals[r := v]) == Made(order, proposals) - Get(proposals, r) + v
    ensures r !in order ==> Made(order, proposals[r := v]) == Made(order, proposals)
  {
    if order != [] {
      DistinctTail(order);
      TailMembers(order);
      MadeUpdate(order[1..], proposals, r, v);
    }
  }

  /** Nobody proposing more than n times bounds the total by n per resident. */
  lemma {:induction false} MadeBound(order: seq<Resident>, proposals: map<Resident, nat>, n: int)
    requires forall r :: r in order ==> Get(proposals, r) <= Max0(n)
    ensures Made(order, proposals) <= |order| * Max0(n)
  {
    if order != [] {
      MadeBound(order[1..], proposals, n);
      var m := Max0(n);
      assert |order| * m == |order[1..]| * m + m;
    }
  }

  /** The loop makes at most n proposals per resident. */
  lemma ProposalsBound(p: Prefs, s: State)
    requires p.Keyed() && ProposalsOk(p, s)
    ensures Made(p.order, s.proposals) <= |p.order| * Max0(p.n)
  {
    MadeBound(p.order, s.proposals, p.n);
  }

  /**
   * A pass either makes one more proposal without growing the free list,
   * or takes a resident that has used up its n proposals off the list.
   */
  lemma NextMeasure(p: Prefs, s: State)
    requires p.Keyed() && s.free != [] && s.free[0] in p.residents && !Fails(p, s)
    ensures var t := Next(p, s);
      if Get(s.proposals, s.free[0]) < p.n then
        Made(p.order, t.proposals) == Made(p.order, s.proposals) + 1 && |t.free| <= |s.free|
      else
        Made(p.order, t.proposals) == Made(p.order, s.proposals) && |t.free| == |s.free| - 1
  {
    var r := s.free[0];
    var index := Get(s.proposals, r);
    if index < p.n {
      MadeUpdate(p.order, s.proposals, r, index + 1);
    } else {
      MadeUpdate(p.order, s.proposals, r, index);
    }
  }

  /**
   * A matched hospital stays matched, and its partner only changes to one
   * it ranks strictly higher.
   */
  lemma NextMatches(p: Prefs, s: State)
    requires s.free != [] && s.free[0] in p.residents && !Fails(p, s)
    ensures var t := Next(p, s);
      && s.matches.Keys <= t.matches.Keys
      && forall h :: h in s.matches ==>
           Rank(p, h, t.matches[h]) <= Rank(p, h, s.matches[h])
           && (t.matches[h] != s.matches[h] ==> Rank(p, h, t.matches[h]) < Rank(p, h, s.matches[h]))
  {
  }

  // ---------------------------------------------------------------------------
  // The outcome
  // ---------------------------------------------------------------------------

  /** On the intended input no proposal raises an error. */
  lemma CompleteNeverFails(p: Prefs, s: State)
    requires Complete(p) && Inv(p, s) && s.free != []
    ensures !Fails(p, s)
  {
    var r := s.free[0];
    var index := Get(s.proposals, r);
    if index < p.n {
      var h := p.residents[r][index];
      if h in s.matches {
        assert s.matches[h] in p.residents;
      }
    }
  }

  /** Every hospital in the matching appears on its resident's list. */
  ghost predicate Acceptable(p: Prefs, m: map<Hospital, Resident>)
  {
    forall h :: h in m ==> m[h] in p.residents && h in p.residents[m[h]]
  }

  /** Resident r lists hospital h' before hospital h. */
  ghost predicate Prefers(p: Prefs, r: Resident, h': Hospital, h: Hospital)
  {
    r in p.residents && IndexOf(p.residents[r], h') < IndexOf(p.residents[r], h)
  }

  /**
   * No blocking pair with a matched resident: when a matched resident lists
   * some hospital before its own, that hospital is matched to a resident it
   * ranks at least as high. Unmatched residents: `UnmatchedSettled`.
   */
  ghost predicate Stable(p: Prefs, m: map<Hospital, Resident>)
  {
    forall h, h' :: NotBlocking(p, m, h, h')
  }

  /** The partner of h and hospital h' do not prefer each other to their partners. */
  ghost predicate NotBlocking(p: Prefs, m: map<Hospital, Resident>, h: Hospital, h': Hospital)
  {
    h in m && Prefers(p, m[h], h', h) ==> h' in m && Rank(p, h', m[h']) <= Rank(p, h', m[h])
  }

  /**
   * No blocking pair with an unmatched resident among the hospitals it was
   * allowed to propose to: each of the first n hospitals on its list holds
   * a resident that hospital ranks at least as high.
   */
  ghost predicate UnmatchedSettled(p: Prefs, m: map<Hospital, Resident>)
  {
    forall r, i :: r in p.residents && r !in m.Values && 0 <= i < |p.residents[r]| && i < p.n ==>
      p.residents[r][i] in m && Rank(p, p.residents[r][i], m[p.residents[r][i]]) <= Rank(p, p.residents[r][i], r)
  }

  /**
   * When the free list has run out, an unmatched resident has made all n
   * proposals, so the source's invariant covers each hospital it proposed to.
   */
  lemma FinalUnmatchedSettled(p: Prefs, s: State)
    requires s.free == [] && Accounted(p, s) && Proposed(p, s)
    ensures UnmatchedSettled(p, s.matches)
  {
    forall r, i | r in p.residents && r !in s.matches.Values && 0 <= i < |p.residents[r]| && i < p.n
      ensures p.residents[r][i] in s.matches
      ensures Rank(p, p.residents[r][i], s.matches[p.residents[r][i]]) <= Rank(p, p.residents[r][i], r)
    {
      assert r in s.proposals && s.proposals[r] >= p.n;
    }
  }

  /** Every resident and every hospital is matched. */
  ghost predicate Perfect(p: Prefs, m: map<Hospital, Resident>)
  {
    (forall r :: r in p.residents ==> r in m.Values) && m.Keys == p.hospitals.Keys
  }

  /** The invariant makes the matching acceptable and stable at every pass. */
  lemma InvStable(p: Prefs, s: State)
    requires Partnered(p, s) && Proposed(p, s)
    ensures Acceptable(p, s.matches) && Stable(p, s.matches)
  {
    forall h | h in s.matches
      ensures s.matches[h] in p.residents && h in p.residents[s.matches[h]]
    {
      assert LastProposal(p, s.proposals, s.matches[h], h);
    }
    InvStableOnly(p, s);
  }

  /** Every pair of the matching is checked by `PreferredProposed`. */
  lemma InvStableOnly(p: Prefs, s: State)
    requires Partnered(p, s) && Proposed(p, s)
    ensures Stable(p, s.matches)
  {
    forall h, h'
      ensures NotBlocking(p, s.matches, h, h')
    {
      if h in s.matches && Prefers(p, s.matches[h], h', h) {
        PreferredProposed(p, s, h, h');
      }
    }
  }

  /**
   * A resident has already proposed to every hospital it lists before its
   * partner, so each of them holds a resident it ranks at least as high.
   */
  lemma PreferredProposed(p: Prefs, s: State, h: Hospital, h': Hospital)
    requires Partnered(p, s) && Proposed(p, s)
    requires h in s.matches && Prefers(p, s.matches[h], h', h)
    ensures h' in s.matches && Rank(p, h', s.matches[h']) <= Rank(p, h', s.matches[h])
  {
    var r := s.matches[h];
    var list := p.residents[r];
    assert LastProposal(p, s.proposals, r, h);
    var i := IndexOf(list, h');
    IndexOfFirst(list, h, s.proposals[r] - 1);
    assert list[i] == h';
  }

  /** With complete lists, once nobody is free everybody is matched. */
  lemma FinalPerfect(p: Prefs, s: State)
    requires Complete(p) && Inv(p, s) && s.free == []
    ensures Perfect(p, s.matches)
  {
    AllMatched(p, s);
    MatchedHospitals(p, s);
    KeysCard(p);
    CountsPerfect(p, s.matches);
  }

  /**
   * A one-to-one matching that covers all residents and uses only known
   * hospitals, as many as there are residents, covers all hospitals too.
   */
  lemma CountsPerfect(p: Prefs, m: map<Hospital, Resident>)
    requires Injective(m) && m.Values == p.residents.Keys && m.Keys <= p.hospitals.Keys
    requires |p.residents.Keys| == |p.hospitals.Keys|
    ensures Perfect(p, m)
  {
    InjectiveCard(m);
    SubsetEqual(m.Keys, p.hospitals.Keys);
  }

  /** Every matched pair is a pair of the input. */
  lemma MatchedHospitals(p: Prefs, s: State)
    requires Complete(p) && Partnered(p, s)
    ensures s.matches.Keys <= p.hospitals.Keys && s.matches.Values <= p.residents.Keys
  {
    forall h | h in s.matches ensures h in p.hospitals {
      assert LastProposal(p, s.proposals, s.matches[h], h);
    }
  }

  /** There are as many residents as names in `order`. */
  lemma KeysCard(p: Prefs)
    requires p.Keyed()
    ensures |p.residents.Keys| == |p.order|
  {
    SeqSetCard(p.order);
    assert p.residents.Keys == set r | r in p.order;
  }

  /**
   * A resident left unmatched with no more proposals to make would have
   * made n hospitals hold n other residents, one more than there are.
   */
  lemma AllMatched(p: Prefs, s: State)
    requires Complete(p) && s.free == []
    requires ProposalsOk(p, s) && MatchesOk(p, s) && Accounted(p, s) && Proposed(p, s)
    ensures s.matches.Values == p.residents.Keys
  {
    MatchedHospitals(p, s);
    forall r | r in p.residents
      ensures r in s.matches.Values
    {
      if r !in s.matches.Values {
        assert r in s.proposals && s.proposals[r] >= p.n;
        Unmatched(p, s, r);
      }
    }
  }

  /** An unmatched resident has not proposed to all n hospitals yet. */
  lemma Unmatched(p: Prefs, s: State, r: Resident)
    requires Complete(p) && ProposalsOk(p, s) && Partnered(p, s) && Injective(s.matches) && Proposed(p, s)
    requires r in p.residents && r !in s.matches.Values
    ensures r !in s.proposals || s.proposals[r] < p.n
  {
    if r in s.proposals && s.proposals[r] >= p.n {
      var list := p.residents[r];
      ExhaustedProposed(p, s, r);
      SeqSetCard(list);
      KeysCard(p);
      assert s.matches.Values <= p.residents.Keys;
      Pigeonhole(s.matches, (set h | h in list), p.residents.Keys, r);
    }
  }

  /**
   * An injective map whose keys cover `hs` and whose values lie in `rs`
   * but miss `r` has fewer elements in `hs` than in `rs`.
   */
  lemma Pigeonhole<K, V>(m: map<K, V>, hs: set<K>, rs: set<V>, r: V)
    requires forall k1, k2 :: k1 in m && k2 in m && m[k1] == m[k2] ==> k1 == k2
    requires hs <= m.Keys && m.Values <= rs && r in rs && r !in m.Values
    ensures |hs| < |rs|
  {
    InjectiveCard(m);
    SubsetCard(hs, m.Keys);
    SubsetCard(m.Values, rs - {r});
  }

  /** A resident that has proposed n times has been to every hospital on its list. */
  lemma ExhaustedProposed(p: Prefs, s: State, r: Resident)
    requires Complete(p) && ProposalsOk(p, s) && Proposed(p, s)
    requires r in p.residents && r in s.proposals && s.proposals[r] >= p.n
    ensures (set h | h in p.residents[r]) <= s.matches.Keys
  {
    var list := p.residents[r];
    forall h | h in list ensures h in s.matches {
      var i := IndexOf(list, h);
      assert list[i] == h;
    }
  }

  /** A list of distinct values has as many members as entries. */
  lemma {:induction false} SeqSetCard<T>(s: seq<T>)
    requires Distinct(s)
    ensures |set x | x in s| == |s|
  {
    if s != [] {
      DistinctTail(s);
      TailMembers(s);
      SeqSetCard(s[1..]);
      assert (set x | x in s) == (set x | x in s[1..]) + {s[0]};
    }
  }

  /** An injective map has as many values as keys. */
  lemma {:induction false} InjectiveCard<K, V>(m: map<K, V>)
    requires forall k1, k2 :: k1 in m && k2 in m && m[k1] == m[k2] ==> k1 == k2
    ensures |m.Keys| == |m.Values|
  {
    if m != map[] {
      var k :| k in m;
      var rest := m - {k};
      InjectiveCard(rest);
      assert m.Keys == rest.Keys + {k};
      forall v | v in m.Values
        ensures v in rest.Values || v == m[k]
      {
        var j :| j in m && m[j] == v;
        if j != k {
          assert rest[j] == v;
        }
      }
      assert m.Values == rest.Values + {m[k]};
      assert m[k] !in rest.Values;
    }
  }

  /** A subset is no larger than its superset. */
  lemma {:induction false} SubsetCard<T>(a: set<T>, b: set<T>)
    requires a <= b
    ensures |a| <= |b|
  {
    if a != {} {
      var x :| x in a;
      SubsetCard(a - {x}, b - {x});
    }
  }

  /** A subset as large as its superset is the superset. */
  lemma SubsetEqual<T>(a: set<T>, b: set<T>)
    requires a <= b && |a| == |b|
    ensures a == b
  {
    if x :| x in b && x !in a {
      SubsetCard(a, b - {x});
    }
  }

  // ---------------------------------------------------------------------------
  // The loop
  // ---------------------------------------------------------------------------

  /**
   * One pass of the loop (A1/matching.py:65-87): the first free resident
   * makes its next proposal. `crashed` reports the error the pass raises.
   */
  method Propose(p: Prefs, free: seq<Resident>, proposals: map<Resident, nat>, matches: map<Hospital, Resident>)
    returns (crashed: bool, free': seq<Resident>, proposals': map<Resident, nat>, matches': map<Hospital, Resident>)
    requires free != [] && free[0] in p.residents
    ensures crashed == Fails(p, State(free, proposals, matches))
    ensures !crashed ==> State(free', proposals', matches') == Next(p, State(free, proposals, matches))
  {
    var resident := free[0];
    free' := free[1..];
    var preferences := p.residents[resident];
    proposals', matches' := proposals, matches;
    if resident !in proposals' {
      proposals' := proposals'[resident := 0];
    }
    var index := proposals'[resident];
    crashed := false;
    if index < p.n {
      if index >= |preferences| {
        crashed := true;
        return;
      }
      var hospital := preferences[index];
      proposals' := proposals'[resident := proposals'[resident] + 1];
      if hospital !in matches' {
        matches' := matches'[hospital := resident];
      } else {
        var current := matches'[hospital];
        if hospital !in p.hospitals {
          crashed := true;
          return;
        }
        var ranking := p.hospitals[hospital];
        if resident !in ranking || current !in ranking {
          crashed := true;
          return;
        }
        if IndexOf(ranking, resident) < IndexOf(ranking, current) {
          matches' := matches'[hospital := resident];
          free' := free' + [current];
        } else {
          free' := free' + [resident];
        }
      }
    }
  }

  /**
   * The whole algorithm (A1/matching.py:59-87): `None` when a pass raises an
   * error, which never happens on complete preference lists; otherwise the
   * final `matches`, which pairs residents with hospitals on their lists,
   * one to one, with no blocking pair for a matched resident, none for an
   * unmatched one among the n hospitals it could propose to, and is perfect
   * on complete lists.
   */
  method GaleShapley(p: Prefs) returns (outcome: Option<map<Hospital, Resident>>)
    requires p.Keyed()
    ensures Complete(p) ==> outcome.Some? && Perfect(p, outcome.value)
    ensures outcome.Some? ==>
      Acceptable(p, outcome.value) && Injective(outcome.value) && Stable(p, outcome.value)
    ensures outcome.Some? ==> UnmatchedSettled(p, outcome.value)
  {
    var matches: map<Hospital, Resident> := map[];
    var free := p.order;
    var proposals: map<Resident, nat> := map[];
    InvInit(p);
    ProposalsBound(p, State(free, proposals, matches));
    while free != []
      invariant Inv(p, State(free, proposals, matches))
      invariant Made(p.order, proposals) <= |p.order| * Max0(p.n)
      decreases |p.order| * Max0(p.n) - Made(p.order, proposals), |free|
    {
      ghost var s := State(free, proposals, matches);
      if Complete(p) {
        CompleteNeverFails(p, s);
      }
      var crashed;
      crashed, free, proposals, matches := Propose(p, free, proposals, matches);
      if crashed {
        return None;
      }
      NextInv(p, s);
      NextMeasure(p, s);
      ProposalsBound(p, State(free, proposals, matches));
    }
    InvStable(p, State(free, proposals, matches));
    FinalUnmatchedSettled(p, State(free, proposals, matches));
    if Complete(p) {
      FinalPerfect(p, State(free, proposals, matches));
    }
    return Some(matches);
  }

  /** The tail of a list of distinct values lacks its head. */
  lemma TailMembers<T>(s: seq<T>)
    requires Distinct(s) && s != []
    ensures forall x :: x in s[1..] <==> x in s && x != s[0]
  {
    forall x | x in s[1..] ensures x != s[0] {
      var i :| 0 <= i < |s[1..]| && s[1..][i] == x;
      assert s[i + 1] == x;
    }
  }

  /** Dropping the head keeps a list distinct. */
  lemma DistinctTail<T>(s: seq<T>)
    requires Distinct(s) && s != []
    ensures Distinct(s[1..])
  {
  }

  /** The members of s + [x]. */
  lemma SnocMembers<T>(s: seq<T>, x: T)
    ensures forall y :: y in s + [x] <==> y in s || y == x
  {
  }

  /** Appending a new value keeps a list distinct. */
  lemma DistinctSnoc<T>(s: seq<T>, x: T)
    requires Distinct(s) && x !in s
    ensures Distinct(s + [x])
  {
  }
}
