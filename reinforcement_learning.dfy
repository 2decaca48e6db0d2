/**
 * Reinforcement-learning fitness (src/extensions/reinforcement_learning.rs):
 * a program plays `n_runs` episodes of bounded length against an
 * environment, and its fitness is the median episode score. Also the
 * `QTable` of action values.
 *
 * The environment is an outside trait; here it is a class that logs every
 * call and answers `act` through a response function of its history. The
 * program's own execution step (`exec`) is a parameter, and so is every
 * random draw.
 */
module ReinforcementLearning {
  import opened Wrappers
  import opened RegisterSets
  import opened Sorting

  datatype Reward = Continue(value: real) | Terminal(value: real)

  datatype StateRewardPair = StateRewardPair(state: seq<real>, reward: Reward)
  {
    /** `get_value`: the payload of either reward variant. */
    function GetValue(): (v: real)
      ensures reward == Continue(v) || reward == Terminal(v)
    {
      match reward
      case Continue(r) => r
      case Terminal(r) => r
    }

    /** `is_terminal`: only a `Terminal` reward ends an episode. */
    function IsTerminal(): (b: bool)
      ensures b <==> reward.Terminal?
    {
      match reward
      case Continue(_) => false
      case Terminal(_) => true
    }
  }

  /** The two accessors lose nothing: the reward is rebuilt from them. */
  lemma RewardFromAccessors(p: StateRewardPair)
    ensures p.reward == if p.IsTerminal() then Terminal(p.GetValue()) else Continue(p.GetValue())
  {
  }

  /** The indices of `s` holding `v`, in increasing order (`enumerate().filter().map()`). */
  function IndicesEqual(s: seq<real>, v: real): (r: seq<nat>)
    ensures forall k: nat :: k in r <==> k < |s| && s[k] == v
    ensures forall i, j :: 0 <= i < j < |r| ==> r[i] < r[j]
    ensures forall i :: 0 <= i < |r| ==> r[i] < |s|
  {
    if s == [] then []
    else
      var front := IndicesEqual(s[..|s| - 1], v);
      assert forall k :: 0 <= k < |s| - 1 ==> s[..|s| - 1][k] == s[k];
      front + (if s[|s| - 1] == v then [|s| - 1] else [])
  }

  /**
   * `ReinforcementLearningParameters::argmax`: the greatest of the first
   * `nActions` registers, and a draw among the indices holding it. `draw`
   * stands for the generator's choice; slicing and `unwrap` panic unless
   * `1 <= nActions <= |registers|`.
   */
  function Argmax(registers: seq<real>, nActions: nat, draw: nat): (a: nat)
    requires 1 <= nActions <= |registers|
    ensures a < nActions && registers[a] == SeqMax(registers[..nActions])
    ensures forall i :: 0 <= i < nActions ==> registers[i] <= registers[a]
  {
    var actions := registers[..nActions];
    var ties := IndicesEqual(actions, SeqMax(actions));
    assert ties != [] by {
      var m :| 0 <= m < |actions| && actions[m] == SeqMax(actions);
      assert m in ties;
    }
    Remainder(draw, |ties|);
    var a := ties[draw % |ties|];
    assert a in ties && actions[a] == registers[a];
    assert forall i :: 0 <= i < nActions ==> actions[i] == registers[i];
    a
  }

  /** Every index holding the maximum is the answer for some draw, and only those are. */
  lemma ArgmaxReachesEveryTie(registers: seq<real>, nActions: nat, a: nat)
    requires 1 <= nActions <= |registers|
    ensures (exists draw: nat :: Argmax(registers, nActions, draw) == a)
            <==> a < nActions && registers[a] == SeqMax(registers[..nActions])
  {
    if a < nActions && registers[a] == SeqMax(registers[..nActions]) {
      var ties := IndicesEqual(registers[..nActions], SeqMax(registers[..nActions]));
      assert a in ties;
      var k :| 0 <= k < |ties| && ties[k] == a;
      Remainder(k, |ties|);
      assert Argmax(registers, nActions, k) == ties[k % |ties|];
    }
  }

  /** The bounds of `%` that indexing by a draw needs. */
  lemma Remainder(k: nat, n: nat)
    requires n > 0
    ensures k % n < n
    ensures k < n ==> k % n == k
  {
  }

  datatype Event = Init | Acted(action: nat, response: StateRewardPair) | Reset | Finish

  /** The environment: every call is logged; `act` answers from the log so far. */
  class Environment {
    var events: seq<Event>
    const respond: (seq<Event>, nat) -> StateRewardPair

    constructor (respond: (seq<Event>, nat) -> StateRewardPair)
      ensures events == [] && this.respond == respond
    {
      events := [];
      this.respond := respond;
    }

    method Init()
      modifies this
      ensures events == old(events) + [Event.Init]
    {
      events := events + [Event.Init];
    }

    method Act(action: nat) returns (pair: StateRewardPair)
      modifies this
      ensures pair == respond(old(events), action)
      ensures events == old(events) + [Acted(action, pair)]
    {
      pair := respond(events, action);
      events := events + [Acted(action, pair)];
    }

    method Reset()
      modifies this
      ensures events == old(events) + [Event.Reset]
    {
      events := events + [Event.Reset];
    }

    method Finish()
      modifies this
      ensures events == old(events) + [Event.Finish]
    {
      events := events + [Event.Finish];
    }
  }

  /** The environment's answers during one episode, in order. */
  type Episode = seq<StateRewardPair>

  /** The score of an episode: the sum of its rewards. */
  function Score(e: Episode): real
  {
    if e == [] then 0.0 else Score(e[..|e| - 1]) + e[|e| - 1].GetValue()
  }

  /** An episode the loop can produce: at most `max` steps, ending at its first terminal reward or at `max`. */
  ghost predicate WellFormedEpisode(e: Episode, max: nat)
  {
    && |e| <= max
    && (forall k :: 0 <= k < |e| - 1 ==> !e[k].IsTerminal())
    && (|e| < max ==> |e| > 0 && e[|e| - 1].IsTerminal())
  }

  /** The `act` calls of one episode, in order. */
  ghost function Acts(actions: seq<nat>, e: Episode): seq<Event>
    requires |actions| == |e|
  {
    if e == [] then []
    else Acts(actions[..|e| - 1], e[..|e| - 1]) + [Acted(actions[|e| - 1], e[|e| - 1])]
  }

  /** No reward before the last one is terminal, and `done` says whether the last one is. */
  ghost predicate EndsAtFirstTerminal(e: Episode, done: bool)
  {
    && (forall k :: 0 <= k < |e| - 1 ==> !e[k].IsTerminal())
    && (done <==> |e| > 0 && e[|e| - 1].IsTerminal())
  }

  /** One more step adds its reward to the score and its `act` call to the log. */
  lemma ExtendEpisode(actions: seq<nat>, e: Episode, action: nat, pair: StateRewardPair, done: bool)
    requires |actions| == |e| && EndsAtFirstTerminal(e, done) && !done
    ensures Score(e + [pair]) == Score(e) + pair.GetValue()
    ensures Acts(actions + [action], e + [pair]) == Acts(actions, e) + [Acted(action, pair)]
    ensures EndsAtFirstTerminal(e + [pair], pair.IsTerminal())
  {
    assert (e + [pair])[..|e|] == e;
    assert (actions + [action])[..|actions|] == actions;
  }

  /** The log one episode leaves: its `act` calls, then `reset`. */
  ghost function EpisodeLog(actions: seq<nat>, e: Episode): seq<Event>
    requires |actions| == |e|
  {
    Acts(actions, e) + [Event.Reset]
  }

  /** The log of several episodes, one after another. */
  ghost function RunsLog(actions: seq<seq<nat>>, runs: seq<Episode>): seq<Event>
    requires |actions| == |runs| && forall r :: 0 <= r < |runs| ==> |actions[r]| == |runs[r]|
  {
    if runs == [] then []
    else RunsLog(actions[..|runs| - 1], runs[..|runs| - 1]) + EpisodeLog(actions[|runs| - 1], runs[|runs| - 1])
  }

  /** One more episode appends its log and its score. */
  lemma ExtendRuns(actions: seq<seq<nat>>, runs: seq<Episode>, picked: seq<nat>, e: Episode)
    requires |actions| == |runs| && (forall r :: 0 <= r < |runs| ==> |actions[r]| == |runs[r]|) && |picked| == |e|
    ensures RunsLog(actions + [picked], runs + [e]) == RunsLog(actions, runs) + Acts(picked, e) + [Event.Reset]
    ensures Scores(runs + [e]) == Scores(runs) + [Score(e)]
  {
    assert (runs + [e])[..|runs|] == runs && (actions + [picked])[..|runs|] == actions;
  }

  function Scores(runs: seq<Episode>): (s: seq<real>)
    ensures |s| == |runs| && forall r :: 0 <= r < |runs| ==> s[r] == Score(runs[r])
  {
    seq(|runs|, r requires 0 <= r < |runs| => Score(runs[r]))
  }

  /** A score as a program-order key: every score is present, so the order is by value. */
  function ScoreKey(x: real): Option<real>
  {
    Some(x)
  }

  /**
   * `scores.sort(); scores.remove(n / 2)`: the middle of the sorted scores
   * (the upper one of an even count), that is, the entry at index `n / 2` of
   * an ascending arrangement of the scores.
   */
  function Median(scores: seq<real>): (m: real)
    requires |scores| > 0
    ensures m in scores
    ensures exists t: seq<real> :: |t| == |scores| && multiset(t) == multiset(scores)
                                && SortedBy(t, ScoreKey) && t[|scores| / 2] == m
  {
    var sorted := Sort(scores, ScoreKey);
    assert sorted[|scores| / 2] in multiset(sorted);
    sorted[|scores| / 2]
  }

  /**
   * Step `k` of an episode that began with the log `log0`: execution turns
   * the registers `trace[k]` into `trace[k + 1]` against the log so far, the
   * action is the `Argmax` of those registers for this run's `k`-th draw, and
   * the reward is the environment's answer to that action.
   */
  ghost predicate PlaysStep(trace: seq<seq<real>>, picked: seq<nat>, e: Episode, log0: seq<Event>, run: nat, k: nat,
                            nActions: nat, exec: (seq<real>, seq<Event>) -> seq<real>, draw: (nat, nat) -> nat,
                            respond: (seq<Event>, nat) -> StateRewardPair)
    requires |picked| == |e| && |trace| == |e| + 1 && k < |e|
  {
    var log := log0 + Acts(picked[..k], e[..k]);
    && trace[k + 1] == exec(trace[k], log)
    && 1 <= nActions <= |trace[k + 1]|
    && picked[k] == Argmax(trace[k + 1], nActions, draw(run, k))
    && e[k] == respond(log, picked[k])
  }

  /** Every step of the episode `e` is played as `PlaysStep` says, the registers passing along `trace`. */
  ghost predicate Plays(trace: seq<seq<real>>, picked: seq<nat>, e: Episode, log0: seq<Event>, run: nat,
                        nActions: nat, exec: (seq<real>, seq<Event>) -> seq<real>, draw: (nat, nat) -> nat,
                        respond: (seq<Event>, nat) -> StateRewardPair)
  {
    && |picked| == |e| && |trace| == |e| + 1
    && forall k: nat :: k < |e| ==> PlaysStep(trace, picked, e, log0, run, k, nActions, exec, draw, respond)
  }

  /** A step played after the ones before extends the episode's play. */
  lemma ExtendPlays(trace: seq<seq<real>>, picked: seq<nat>, e: Episode, log0: seq<Event>, run: nat,
                    nActions: nat, exec: (seq<real>, seq<Event>) -> seq<real>, draw: (nat, nat) -> nat,
                    respond: (seq<Event>, nat) -> StateRewardPair, regs: seq<real>, action: nat, pair: StateRewardPair)
    requires Plays(trace, picked, e, log0, run, nActions, exec, draw, respond)
    requires regs == exec(trace[|e|], log0 + Acts(picked, e)) && 1 <= nActions <= |regs|
    requires action == Argmax(regs, nActions, draw(run, |e|)) && pair == respond(log0 + Acts(picked, e), action)
    ensures Plays(trace + [regs], picked + [action], e + [pair], log0, run, nActions, exec, draw, respond)
  {
    var t, p, f := trace + [regs], picked + [action], e + [pair];
    forall k: nat | k < |f|
      ensures PlaysStep(t, p, f, log0, run, k, nActions, exec, draw, respond)
    {
      assert p[..k] == if k < |e| then picked[..k] else picked;
      assert f[..k] == if k < |e| then e[..k] else e;
      if k < |e| {
        assert PlaysStep(trace, picked, e, log0, run, k, nActions, exec, draw, respond);
      }
    }
  }

  /** The last element of a non-empty sequence. */
  function Last<T>(s: seq<T>): T
    requires s != []
  {
    s[|s| - 1]
  }

  /**
   * Run `r` of `eval_fitness` is a well-formed episode of at most
   * `maxLength` steps that began with the log of the runs before it after
   * `start`, and with the registers the previous run left (`regs0` for the
   * first run: the registers are never cleared between runs).
   */
  ghost predicate RunPlays(traces: seq<seq<seq<real>>>, actions: seq<seq<nat>>, runs: seq<Episode>, start: seq<Event>,
                           regs0: seq<real>, r: nat, maxLength: nat, nActions: nat, exec: (seq<real>, seq<Event>) -> seq<real>,
                           draw: (nat, nat) -> nat, respond: (seq<Event>, nat) -> StateRewardPair)
    requires |actions| == |runs| == |traces| && (forall i :: 0 <= i < |runs| ==> |actions[i]| == |runs[i]|) && r < |runs|
  {
    && WellFormedEpisode(runs[r], maxLength)
    && traces[r] != []
    && (r == 0 ==> traces[r][0] == regs0)
    && (r > 0 ==> traces[r - 1] != [] && traces[r][0] == Last(traces[r - 1]))
    && Plays(traces[r], actions[r], runs[r], start + RunsLog(actions[..r], runs[..r]), r, nActions, exec, draw, respond)
  }

  /** Every run of `runs` is played as `RunPlays` says. */
  ghost predicate RunsPlay(traces: seq<seq<seq<real>>>, actions: seq<seq<nat>>, runs: seq<Episode>, start: seq<Event>,
                           regs0: seq<real>, maxLength: nat, nActions: nat, exec: (seq<real>, seq<Event>) -> seq<real>,
                           draw: (nat, nat) -> nat, respond: (seq<Event>, nat) -> StateRewardPair)
  {
    && |actions| == |runs| == |traces| && (forall i :: 0 <= i < |runs| ==> |actions[i]| == |runs[i]|)
    && forall r :: 0 <= r < |runs| ==> RunPlays(traces, actions, runs, start, regs0, r, maxLength, nActions, exec, draw, respond)
  }

  /** One more run that starts where the last one left the registers and the log extends the runs' play. */
  lemma ExtendRunPlays(traces: seq<seq<seq<real>>>, actions: seq<seq<nat>>, runs: seq<Episode>, start: seq<Event>,
                       regs0: seq<real>, maxLength: nat, nActions: nat, exec: (seq<real>, seq<Event>) -> seq<real>,
                       draw: (nat, nat) -> nat, respond: (seq<Event>, nat) -> StateRewardPair,
                       trace: seq<seq<real>>, picked: seq<nat>, e: Episode)
    requires RunsPlay(traces, actions, runs, start, regs0, maxLength, nActions, exec, draw, respond)
    requires WellFormedEpisode(e, maxLength)
    requires Plays(trace, picked, e, start + RunsLog(actions, runs), |runs|, nActions, exec, draw, respond)
    requires runs == [] ==> trace[0] == regs0
    requires runs != [] ==> traces[|runs| - 1] != [] && trace[0] == Last(traces[|runs| - 1])
    ensures RunsPlay(traces + [trace], actions + [picked], runs + [e], start, regs0, maxLength, nActions, exec, draw, respond)
  {
    var ts, as_, rs := traces + [trace], actions + [picked], runs + [e];
    forall r | 0 <= r < |rs|
      ensures RunPlays(ts, as_, rs, start, regs0, r, maxLength, nActions, exec, draw, respond)
    {
      assert as_[..r] == actions[..r] && rs[..r] == runs[..r];
      if r < |runs| {
        assert RunPlays(traces, actions, runs, start, regs0, r, maxLength, nActions, exec, draw, respond);
        assert ts[r] == traces[r] && as_[r] == actions[r] && rs[r] == runs[r];
        if r > 0 {
          assert ts[r - 1] == traces[r - 1];
        }
      } else {
        assert as_[..r] == actions && rs[..r] == runs;
      }
    }
  }

  /** Program execution only writes the registers it is given. */
  ghost predicate KeepsLength(exec: (seq<real>, seq<Event>) -> seq<real>)
  {
    forall r, h :: |exec(r, h)| == |r|
  }

  class Program {
    var registers: seq<real>
    var fitness: Option<real>

    /**
     * `eval_fitness`: `init`, then `nRuns` episodes, each followed by
     * `reset`, then `finish`. The fitness is the median episode score, also
     * stored in `fitness`. `remove(n_runs / 2)` panics when there are no runs.
     * `traces[r]` holds the registers of run `r`, step by step; each run
     * starts with the registers the one before left.
     */
    method EvalFitness(nRuns: nat, maxEpisodeLength: nat, env: Environment, nActions: nat,
                       exec: (seq<real>, seq<Event>) -> seq<real>, draw: (nat, nat) -> nat)
      returns (median: real, ghost actions: seq<seq<nat>>, ghost runs: seq<Episode>, ghost traces: seq<seq<seq<real>>>)
      requires nRuns >= 1 && KeepsLength(exec) && 1 <= nActions <= |registers|
      modifies this, env
      ensures |runs| == nRuns && |actions| == nRuns && |traces| == nRuns
      ensures RunsPlay(traces, actions, runs, old(env.events) + [Event.Init], old(registers), maxEpisodeLength,
                       nActions, exec, draw, env.respond)
      ensures traces[nRuns - 1] != [] && registers == Last(traces[nRuns - 1])
      ensures env.events == old(env.events) + [Event.Init] + RunsLog(actions, runs) + [Event.Finish]
      ensures median == Median(Scores(runs)) && fitness == Some(median)
    {
      env.Init();
      var scores;
      scores, actions, runs, traces := PlayRuns(nRuns, maxEpisodeLength, env, nActions, exec, draw);
      env.Finish();
      median := Median(scores);
      fitness := Some(median);
    }

    /**
     * The runs loop of `eval_fitness`: `nRuns` episodes, each followed by
     * `reset`, and the score of each.
     */
    method PlayRuns(nRuns: nat, maxEpisodeLength: nat, env: Environment, nActions: nat,
                    exec: (seq<real>, seq<Event>) -> seq<real>, draw: (nat, nat) -> nat)
      returns (scores: seq<real>, ghost actions: seq<seq<nat>>, ghost runs: seq<Episode>,
               ghost traces: seq<seq<seq<real>>>)
      requires KeepsLength(exec) && 1 <= nActions <= |registers|
      modifies this`registers, env
      ensures |runs| == nRuns && |actions| == nRuns && |traces| == nRuns && scores == Scores(runs)
      ensures RunsPlay(traces, actions, runs, old(env.events), old(registers), maxEpisodeLength,
                       nActions, exec, draw, env.respond)
      ensures nRuns > 0 ==> traces[nRuns - 1] != [] && registers == Last(traces[nRuns - 1])
      ensures env.events == old(env.events) + RunsLog(actions, runs)
    {
      scores, actions, runs, traces := [], [], [], [];
      ghost var start, regs0 := env.events, registers;
      for run := 0 to nRuns
        invariant |runs| == run && |actions| == run && |traces| == run && scores == Scores(runs)
        invariant RunsPlay(traces, actions, runs, start, regs0, maxEpisodeLength, nActions, exec, draw, env.respond)
        invariant run == 0 ==> registers == regs0
        invariant run > 0 ==> traces[run - 1] != [] && registers == Last(traces[run - 1])
        invariant env.events == start + RunsLog(actions, runs)
        invariant |registers| >= nActions
      {
        var score;
        ghost var picked, episode, trace;
        score, picked, episode, trace := PlayEpisode(run, maxEpisodeLength, env, nActions, exec, draw);
        ExtendRunPlays(traces, actions, runs, start, regs0, maxEpisodeLength, nActions, exec, draw, env.respond,
                       trace, picked, episode);
        scores := scores + [score];
        env.Reset();
        ExtendRuns(actions, runs, picked, episode);
        runs, actions, traces := runs + [episode], actions + [picked], traces + [trace];
      }
    }

    /**
     * One episode (the inner loop of `eval_fitness`): up to
     * `maxEpisodeLength` steps of execute, pick an action by `Argmax`, `act`
     * and add the reward, stopping right after a terminal reward. `trace`
     * holds the registers before the first step and after each execution.
     */
    method PlayEpisode(run: nat, maxEpisodeLength: nat, env: Environment, nActions: nat,
                       exec: (seq<real>, seq<Event>) -> seq<real>, draw: (nat, nat) -> nat)
      returns (score: real, ghost picked: seq<nat>, ghost episode: Episode, ghost trace: seq<seq<real>>)
      requires KeepsLength(exec) && 1 <= nActions <= |registers|
      modifies this`registers, env
      ensures |picked| == |episode| && WellFormedEpisode(episode, maxEpisodeLength)
      ensures Plays(trace, picked, episode, old(env.events), run, nActions, exec, draw, env.respond)
      ensures trace[0] == old(registers) && registers == Last(trace)
      ensures score == Score(episode)
      ensures env.events == old(env.events) + Acts(picked, episode)
      ensures |registers| == |old(registers)|
    {
      score := 0.0;
      episode, picked, trace := [], [], [registers];
      var step := 0;
      var done := false;
      var regs := registers;
      while step < maxEpisodeLength && !done
        invariant step <= maxEpisodeLength && |episode| == step && |picked| == step
        invariant score == Score(episode)
        invariant EndsAtFirstTerminal(episode, done)
        invariant env.events == old(env.events) + Acts(picked, episode)
        invariant Plays(trace, picked, episode, old(env.events), run, nActions, exec, draw, env.respond)
        invariant trace[0] == registers && Last(trace) == regs
        invariant |regs| == |registers|
        modifies env
        decreases maxEpisodeLength - step
      {
        regs := exec(regs, env.events);
        var action := Argmax(regs, nActions, draw(run, step));
        var stateReward := env.Act(action);
        ExtendPlays(trace, picked, episode, old(env.events), run, nActions, exec, draw, env.respond,
                    regs, action, stateReward);
        trace := trace + [regs];
        score := score + stateReward.GetValue();
        ExtendEpisode(picked, episode, action, stateReward, done);
        episode, picked := episode + [stateReward], picked + [action];
        done := stateReward.IsTerminal();
        step := step + 1;
      }
      registers := regs;
    }

    /** `get_fitness`: the stored fitness, if any. */
    function GetFitness(): (f: Option<real>)
      reads this
      ensures f == fitness
    {
      fitness
    }
  }

  /** The `-1i32 as usize` sentinel on a 64-bit target. */
  const USIZE_MAX: nat := 0xFFFF_FFFF_FFFF_FFFF
  const I32_MAX: nat := 0x7FFF_FFFF

  /** The first index of `v` in `s`. */
  function FirstIndexOf(s: seq<real>, v: real): (k: nat)
    requires v in s
    ensures k < |s| && s[k] == v && forall i :: 0 <= i < k ==> s[i] != v
  {
    if s[0] == v then 0 else 1 + FirstIndexOf(s[1..], v)
  }

  /**
   * What `action_argmax` answers for a row: the first index of the greatest
   * value when that value is above 0, the sentinel otherwise.
   */
  function BestAction(row: seq<real>): (a: nat)
  {
    if forall i :: 0 <= i < |row| ==> row[i] <= 0.0 then USIZE_MAX
    else FirstIndexOf(row, SeqMax(row))
  }

  /** The greatest value in a row, as a Q-learning target should use it. */
  function MaxValue(row: seq<real>): (m: real)
    requires |row| > 0
    ensures exists i :: 0 <= i < |row| && row[i] == m
    ensures forall i :: 0 <= i < |row| ==> row[i] <= m
  {
    SeqMax(row)
  }

  /** `t` with the one cell `t[r][c]` replaced by `v`. */
  function SetCell(t: seq<seq<real>>, r: nat, c: nat, v: real): (u: seq<seq<real>>)
    requires r < |t| && c < |t[r]|
  {
    t[r := t[r][c := v]]
  }

  /** Setting a cell keeps the table's shape and every other cell. */
  lemma SetCellChangesOneCell(t: seq<seq<real>>, r: nat, c: nat, v: real)
    requires r < |t| && c < |t[r]|
    ensures var u := SetCell(t, r, c, v);
            && |u| == |t| && (forall i :: 0 <= i < |t| ==> |u[i]| == |t[i]|)
            && u[r][c] == v
            && forall i, j :: 0 <= i < |t| && 0 <= j < |t[i]| && (i, j) != (r, c) ==> u[i][j] == t[i][j]
  {
  }

  /**
   * One temporal-difference step: `q` moved by the fraction `alpha` of the
   * way towards the target `reward + gamma * next`.
   */
  function Step(q: real, alpha: real, gamma: real, reward: real, next: real): (r: real)
    ensures r - q == alpha * ((reward + gamma * next) - q)
    ensures alpha == 0.0 ==> r == q
    ensures alpha == 1.0 ==> r == reward + gamma * next
  {
    q + alpha * (reward + gamma * next - q)
  }

  class QTable {
    var table: seq<seq<real>>
    const alpha: real
    const gamma: real

    /** `QTable::new`: `nRegisters` rows of `nActions` zeros. */
    constructor (nActions: nat, nRegisters: nat, alpha: real, gamma: real)
      ensures |table| == nRegisters
      ensures forall r :: 0 <= r < nRegisters ==> |table[r]| == nActions && AllZero(table[r])
      ensures this.alpha == alpha && this.gamma == gamma
    {
      table := seq(nRegisters, _ => seq(nActions, _ => 0.0));
      this.alpha, this.gamma := alpha, gamma;
    }

    /**
     * `action_argmax`: scans the row keeping the first strictly greater value
     * above the running best, which starts at 0 with action -1; a row with
     * nothing above 0 gives `-1 as usize`. The `expect` panics on a missing
     * row; actions past `i32::MAX` would wrap and are excluded.
     */
    method ActionArgmax(registerNumber: nat) returns (a: nat)
      requires registerNumber < |table| && |table[registerNumber]| <= I32_MAX
      ensures a == BestAction(table[registerNumber])
      ensures a == USIZE_MAX <==> forall i :: 0 <= i < |table[registerNumber]| ==> table[registerNumber][i] <= 0.0
      ensures a != USIZE_MAX ==>
                && a < |table[registerNumber]| && table[registerNumber][a] > 0.0
                && (forall i :: 0 <= i < |table[registerNumber]| ==> table[registerNumber][i] <= table[registerNumber][a])
                && (forall i :: 0 <= i < a ==> table[registerNumber][i] < table[registerNumber][a])
    {
      var row := table[registerNumber];
      var bestAction: int := -1;
      var bestQValue := 0.0;
      for action := 0 to |row|
        invariant -1 <= bestAction < action
        invariant bestAction == -1 ==> bestQValue == 0.0 && forall i :: 0 <= i < action ==> row[i] <= 0.0
        invariant bestAction >= 0 ==> bestQValue == row[bestAction] > 0.0
        invariant forall i :: 0 <= i < action ==> row[i] <= bestQValue
        invariant bestAction >= 0 ==> forall i :: 0 <= i < bestAction ==> row[i] < bestQValue
      {
        if row[action] > bestQValue {
          bestQValue := row[action];
          bestAction := action;
        }
      }
      a := if bestAction < 0 then USIZE_MAX else bestAction;
      BestActionIs(row, a);
    }

    /**
     * `update`: moves the one cell `table[cur][act]` towards
     * `reward + gamma * next`, where `next` is what `action_argmax(nextRegister)`
     * returns (an action index, or the sentinel) converted to a number.
     */
    method Update(cur: nat, act: nat, reward: real, nextRegister: nat)
      requires cur < |table| && act < |table[cur]| && nextRegister < |table| && |table[nextRegister]| <= I32_MAX
      modifies this`table
      ensures table == SetCell(old(table), cur, act,
                               Step(old(table)[cur][act], alpha, gamma, reward, BestAction(old(table)[nextRegister]) as real))
    {
      var currentQ := table[cur][act];
      var nextAction := ActionArgmax(nextRegister);
      var nextQ := nextAction as real;
      table := SetCell(table, cur, act, Step(currentQ, alpha, gamma, reward, nextQ));
    }

    /**
     * The update the Q-learning rule calls for: the same single-cell step,
     * with the next state's greatest action value as the target's future term.
     */
    method UpdateWithMaxValue(cur: nat, act: nat, reward: real, nextRegister: nat)
      requires cur < |table| && act < |table[cur]| && nextRegister < |table| && |table[nextRegister]| > 0
      modifies this`table
      ensures table == SetCell(old(table), cur, act,
                               Step(old(table)[cur][act], alpha, gamma, reward, MaxValue(old(table)[nextRegister])))
    {
      var currentQ := table[cur][act];
      var nextQ := MaxValue(table[nextRegister]);
      table := SetCell(table, cur, act, Step(currentQ, alpha, gamma, reward, nextQ));
    }
  }

  /** The scan's answer is the specification's. */
  lemma BestActionIs(row: seq<real>, a: nat)
    requires a == USIZE_MAX ==> forall i :: 0 <= i < |row| ==> row[i] <= 0.0
    requires a != USIZE_MAX ==>
               && a < |row| && row[a] > 0.0
               && (forall i :: 0 <= i < |row| ==> row[i] <= row[a])
               && (forall i :: 0 <= i < a ==> row[i] < row[a])
    ensures a == BestAction(row)
  {
    if a != USIZE_MAX {
      var top := SeqMax(row);
      assert row[a] == top;
    }
  }

  /**
   * The future term `update` uses differs from the greatest action value:
   * for a next row `[0, 5]` it is 1 (the index of 5), not 5.
   */
  lemma IndexIsNotValue()
    ensures BestAction([0.0, 5.0]) as real == 1.0
    ensures MaxValue([0.0, 5.0]) == 5.0
  {
    BestActionIs([0.0, 5.0], 1);
  }
}
