/** Enrolment of a finger over several scans (libfprint: core.c with imgdev.c and img.c), on state updated per call. */
module FpEnroll {
  import opened Arithmetic
  import opened Lists

  const ENROLL_COMPLETE := 1
  const ENROLL_FAIL := 2
  const ENROLL_PASS := 3
  const ENROLL_RETRY := 100
  const ENROLL_RETRY_REMOVE_FINGER := 103
  const FP_TIMEOUT := 123
  const EINVAL := 22
  const ENOTSUP := 95

  type Sample = seq<int>

  /**
   * How a scan ends: the capture gives a code other than 0, or its image has too few minutiae, or it gives a sample.
   */
  datatype Scan = NoImage(code: int) | Poor | Sampled(sample: Sample)
  {
    predicate Possible() { NoImage? ==> code != 0 }
  }

  datatype ImgAction = ActionNone | ActionEnroll

  /** `fp_print_data` as far as enrolment changes it: samples are prepended. */
  class PrintData {
    var samples: seq<Sample>

    constructor ()
      ensures samples == []
    {
      samples := [];
    }

    method Prepend(s: Sample)
      modifies this
      ensures samples == [s] + old(samples)
    {
      samples := [s] + samples;
    }
  }

  /** A claimed device with the print pointer its caller passes to every call. */
  class Enrolment {
    const stages: nat
    const supported: bool
    var stage: int
    var imgStage: int
    var action: ImgAction
    var enrolled: PrintData?
    /** The samples of the enrolment under way, oldest first. */
    ghost var kept: seq<Sample>

    /** No enrolment, or one whose print holds one sample per stage passed and none too many. */
    ghost predicate Valid()
      reads this, enrolled
    {
      stage != -1 ==> 0 <= stage < stages && imgStage == stage && action == ActionEnroll && Holds(stage)
    }

    ghost predicate Holds(n: int)
      reads this, enrolled
    {
      enrolled != null && |kept| == n && enrolled.samples == Reversed(kept)
    }

    /** The imaging device agrees with the core about the stage. */
    ghost predicate InStep()
      reads this
    {
      imgStage == (if stage == -1 then 0 else stage) && action == if stage == -1 then ActionNone else ActionEnroll
    }

    constructor (stages: nat, supported: bool)
      ensures Valid() && InStep() && this.stages == stages && this.supported == supported && enrolled == null
    {
      this.stages, this.supported := stages, supported;
      stage, imgStage, action, enrolled, kept := -1, 0, ActionNone, null, [];
    }

    /** `fp_enroll_reset`. */
    method Reset()
      modifies this`stage, this`imgStage, this`action
      ensures Valid() && InStep() && stage == -1
    {
      stage, imgStage, action := -1, 0, ActionNone;
    }

    /** `img_dev_enroll`: the driver's part of one stage. */
    method DriverEnroll(initial: bool, atStage: int, scan: Scan) returns (r: int)
      requires scan.Possible() && (initial || enrolled != null)
      modifies this`enrolled, this`kept, enrolled
      ensures initial ==> fresh(enrolled)
      ensures !initial ==> enrolled == old(enrolled)
      ensures kept == (if initial then [] else old(kept)) + if scan.Sampled? then [scan.sample] else []
      ensures enrolled != null
      ensures initial || old(enrolled.samples == Reversed(kept)) ==> enrolled.samples == Reversed(kept)
      ensures r == match scan
        case NoImage(code) => code
        case Poor => ENROLL_RETRY
        case Sampled(_) => if atStage < stages - 1 then ENROLL_PASS else ENROLL_COMPLETE
    {
      if initial {
        enrolled := new PrintData();
        kept := [];
      }
      match scan
      case NoImage(code) => r := code;
      case Poor => r := ENROLL_RETRY;
      case Sampled(s) =>
        enrolled.Prepend(s);
        ReversedSnoc(kept, s);
        kept := kept + [s];
        r := if atStage < stages - 1 then ENROLL_PASS else ENROLL_COMPLETE;
    }

    /** The code given back for a driver's code. */
    static function Accepted(code: int): int {
      if code < 0 || code in {1, 2, 3, 100, 101, 102, 103, FP_TIMEOUT} then code else -EINVAL
    }

    /** What `fp_enroll_finger_img` does with the driver's code. */
    method Conclude(at: int, code: int) returns (r: int)
      modifies this`stage, this`imgStage, this`action
      ensures r == Accepted(code)
      ensures stage == if r == ENROLL_PASS then at + 1 else if r < 0 || r in {ENROLL_COMPLETE, ENROLL_FAIL} then -1 else old(stage)
      ensures imgStage == if r == ENROLL_PASS then at + 1 else if code >= 0 && stage == -1 && r < ENROLL_RETRY then 0 else old(imgStage)
      ensures action == if code >= 0 && r != ENROLL_PASS && r < ENROLL_RETRY then ActionNone else old(action)
    {
      r := code;
      if code < 0 {
        stage := -1;
      } else if code == ENROLL_PASS {
        stage, imgStage := at + 1, at + 1;
      } else if code == ENROLL_COMPLETE || code == ENROLL_FAIL {
        stage, imgStage, action := -1, 0, ActionNone;
      } else if !(ENROLL_RETRY <= code <= ENROLL_RETRY_REMOVE_FINGER || code == FP_TIMEOUT) {
        stage, imgStage, action := -1, 0, ActionNone;
        r := -EINVAL;
      }
    }

    /** The samples of the enrolment under way. */
    ghost function Current(): seq<Sample>
      reads this
    {
      if stage == -1 then [] else kept
    }

    /** The stage a call works on. */
    static function Stage(stage: int): int {
      if stage == -1 then 0 else stage
    }

    /** `fp_enroll_finger_img`. */
    method EnrollFinger(scan: Scan) returns (r: int)
      requires Valid() && scan.Possible()
      modifies this`stage, this`imgStage, this`action, this`enrolled, this`kept, enrolled
      ensures (stages == 0 || !supported ==> r == -ENOTSUP) && (fresh(enrolled) || enrolled == old(enrolled))
      ensures Valid() <==> stages == 0 || !supported || scan != NoImage(ENROLL_PASS)
      ensures stages > 0 && supported ==>
        && kept == (if old(stage) == -1 then [] else old(kept)) + (if scan.Sampled? then [scan.sample] else [])
        && Holds(|kept|)
        && stage == if r == ENROLL_PASS then Stage(old(stage)) + 1 else if r < ENROLL_RETRY then -1 else Stage(old(stage))
      ensures stages > 0 && supported && scan.Sampled? ==>
        (r == ENROLL_COMPLETE <==> |kept| == stages) && (r == ENROLL_PASS <==> |kept| < stages)
      ensures stages > 0 && supported && !scan.Sampled? ==> r == Accepted(if scan.Poor? then ENROLL_RETRY else scan.code)
      ensures stages > 0 && supported && r == ENROLL_COMPLETE && scan != NoImage(ENROLL_COMPLETE) ==> scan.Sampled?
      ensures stages > 0 && supported ==> (InStep() <==> !(scan.NoImage? && scan.code < 0))
    {
      var at, initial := stage, false;
      if stages == 0 || !supported {
        return -ENOTSUP;
      }
      if at == -1 {
        initial := true;
        imgStage, action := 0, ActionEnroll;
        at := 0;
        stage := at;
      }
      if at >= stages {
        // "exceeding number of enroll stages": never the case
        assert false;
      }
      r := DriverEnroll(initial, at, scan);
      r := Conclude(at, r);
    }
  }

  /** Negative codes and those of the interface are handed on; anything else is EINVAL. */
  lemma AcceptedIs(code: int)
    ensures Enrolment.Accepted(code) == if code < 0 || 1 <= code <= 3 || 100 <= code <= 103 || code == 123 then code else -22
    ensures ENROLL_COMPLETE == 1 && ENROLL_FAIL == 2 && ENROLL_PASS == 3 && ENROLL_RETRY == 100 && FP_TIMEOUT == 123
  {
  }

  datatype Call = EnrollCall(scan: Scan) | ResetCall
  {
    /** A capture gives 0, a negative code, a time-out or a retry. */
    predicate Usual() {
      EnrollCall? && scan.NoImage? ==> scan.code < 0 || scan.code == FP_TIMEOUT || 100 <= scan.code <= 103
    }

    /** The call does not give up the enrolment under way. */
    predicate GoesOn() {
      EnrollCall? && (scan.NoImage? ==> scan.code >= 0)
    }

    function Samples(): seq<Sample> {
      if EnrollCall? && scan.Sampled? then [scan.sample] else []
    }
  }

  /** One call: the print it completes, if it does. */
  method Perform(e: Enrolment, c: Call) returns (completed: seq<seq<Sample>>)
    requires e.Valid() && e.stages > 0 && e.supported && c.Usual()
    modifies e, e.enrolled
    ensures e.Valid() && (fresh(e.enrolled) || e.enrolled == old(e.enrolled))
    ensures |completed| <= 1 && AllOfLength(completed, e.stages)
    ensures c.GoesOn() ==> old(e.Current()) + c.Samples() == Flat(completed) + e.Current()
    ensures !c.GoesOn() ==> completed == [] && e.Current() == []
    ensures |e.Current()| < e.stages
  {
    hide Flat, Reversed;
    completed := [];
    FlatOfNone<Sample>();
    match c
    case ResetCall => e.Reset();
    case EnrollCall(scan) =>
      var r := e.EnrollFinger(scan);
      if r == ENROLL_COMPLETE {
        ReversedTwice(e.kept);
        completed := [Reversed(e.enrolled.samples)];
        FlatOfOne(e.kept);
      }
  }

  function AllSamples(calls: seq<Call>): seq<Sample> {
    if calls == [] then [] else AllSamples(calls[..|calls| - 1]) + calls[|calls| - 1].Samples()
  }

  /** The samples left when every call that gives an enrolment up takes those of its unfinished print with it. */
  function Surviving(stages: nat, calls: seq<Call>): seq<Sample>
    requires stages > 0
  {
    if calls == [] then []
    else
      var c, before := calls[|calls| - 1], Surviving(stages, calls[..|calls| - 1]);
      if c.GoesOn() then before + c.Samples() else before[..|before| - |before| % stages]
  }

  /** When nothing is given up, every sample survives. */
  lemma {:induction false} AllSurvive(stages: nat, calls: seq<Call>)
    requires stages > 0 && forall i :: 0 <= i < |calls| ==> calls[i].GoesOn()
    ensures Surviving(stages, calls) == AllSamples(calls)
  {
    if calls != [] {
      AllSurvive(stages, calls[..|calls| - 1]);
    }
  }

  /** A rest below `n` on top of a multiple of `n` is the remainder. */
  lemma Remainder(n: nat, a: nat, rest: nat)
    requires rest < n && a % n == 0
    ensures (a + rest) % n == rest
  {
    Divided(a, n);
    QuotientIs(a + rest, n, a / n, rest);
  }

  lemma {:induction false} FlatLength<T>(ss: seq<seq<T>>, n: nat)
    requires n > 0 && AllOfLength(ss, n)
    ensures |Flat(ss)| % n == 0
  {
    if ss != [] {
      FlatLength(ss[..|ss| - 1], n);
      var front := |Flat(ss[..|ss| - 1])|;
      assert |Flat(ss)| == front + n;
      OneMultipleMore(front, n);
    }
  }

  lemma OneMultipleMore(a: nat, n: nat)
    requires n > 0 && a % n == 0
    ensures (a + n) % n == 0
  {
    Divided(a, n);
    assert a + n == n * (a / n + 1);
    MultipleOf(n, a / n + 1);
  }

  /** Giving up takes exactly the unfinished print. */
  lemma GivenUp<T>(done: seq<seq<T>>, current: seq<T>, stages: nat)
    requires AllOfLength(done, stages) && |current| < stages
    ensures var all := Flat(done) + current; all[..|all| - |all| % stages] == Flat(done)
  {
    FlatLength(done, stages);
    Remainder(stages, |Flat(done)|, |current|);
  }

  /** Carrying the samples of an enrolment over one call. */
  lemma Carried<T>(done: seq<T>, current: seq<T>, samples: seq<T>, more: seq<T>, current': seq<T>)
    requires current + samples == more + current'
    ensures (done + current) + samples == (done + more) + current'
  {
    assert (done + current) + samples == done + (current + samples);
  }

  /** What survives one call more: `done` and `current` before it, `more` completed by it, `current'` after it. */
  lemma SurvivingNext(stages: nat, calls: seq<Call>, i: nat, done: seq<seq<Sample>>, current: seq<Sample>,
                      more: seq<seq<Sample>>, current': seq<Sample>)
    requires i < |calls| && |current| < stages && |more| <= 1 && AllOfLength(done, stages) && AllOfLength(more, stages)
    requires Surviving(stages, calls[..i]) == Flat(done) + current
    requires if calls[i].GoesOn() then current + calls[i].Samples() == Flat(more) + current' else more == [] && current' == []
    ensures Surviving(stages, calls[..i + 1]) == Flat(done + more) + current' && AllOfLength(done + more, stages)
  {
    hide Flat, AllOfLength, Call.GoesOn, Call.Samples;
    assert calls[..i + 1][..i] == calls[..i];
    FlatOfAtMostOne(done, more);
    AllOfLengthConcat(done, more, stages);
    if calls[i].GoesOn() {
      Carried(Flat(done), current, calls[i].Samples(), Flat(more), current');
    } else {
      GivenUp(done, current, stages);
      FlatOfNone<Sample>();
    }
  }

  /**
   * Any run of calls on one print pointer: every completed print holds one sample per stage, and the completed prints and
   * the one under way hold, in order, all samples taken but those of the enrolments given up; while none is, all of them.
   */
  method RunCalls(stages: nat, calls: seq<Call>) returns (e: Enrolment, completed: seq<seq<Sample>>)
    requires stages > 0 && forall i :: 0 <= i < |calls| ==> calls[i].Usual()
    ensures e.Valid() && e.stages == stages && AllOfLength(completed, stages) && |e.Current()| < stages
    ensures Surviving(stages, calls) == Flat(completed) + e.Current()
    ensures (forall i :: 0 <= i < |calls| ==> calls[i].GoesOn()) ==> AllSamples(calls) == Flat(completed) + e.Current()
  {
    e := new Enrolment(stages, true);
    completed := [];
    for i := 0 to |calls|
      invariant fresh(e) && (e.enrolled == null || fresh(e.enrolled)) && e.stages == stages && e.supported
      invariant e.Valid() && AllOfLength(completed, stages) && |e.Current()| < stages
      invariant Surviving(stages, calls[..i]) == Flat(completed) + e.Current()
    {
      hide Enrolment.Valid, Enrolment.Current, Call.GoesOn, Call.Usual, Call.Samples, Flat, AllOfLength, Surviving;
      ghost var current := e.Current();
      var more := Perform(e, calls[i]);
      SurvivingNext(stages, calls, i, completed, current, more, e.Current());
      completed := completed + more;
    }
    assert calls[..|calls|] == calls;
    if forall i :: 0 <= i < |calls| ==> calls[i].GoesOn() {
      AllSurvive(stages, calls);
    }
  }
}
