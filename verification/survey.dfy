/**
 * The player's page (public/js/survey.js): a question at a time with a
 * 30-second countdown, the set of questions already answered or skipped
 * (kept in the browser's local storage), and the screens the player moves
 * through. Each awaited request is modelled by its reply, given as an input.
 */
module Survey {
  import opened Wrappers
  import opened Strings
  import Server

  /** `DURATION`: the seconds given to answer a question. */
  const Duration: int := 30
  /** The one error message after which the same question is asked again. */
  const Incoherent := "R\U{E9}ponse incoh\U{E9}rente"
  /** The placeholder shown when an answer was refused as incoherent. */
  const RealAnswerHint := "\U{C9}cris une vraie r\U{E9}ponse !"

  datatype Screen = Welcome | QuestionScreen | Registered | TimedOut | Done
  datatype Color = Green | Orange | Red

  /** `currentQ`: the question shown, as `/api/questions/next` sent it. */
  datatype Current = Current(id: int, text: string)

  /** What `/api/questions/next` gives: a question, `{ done: true }`, or a failure (the `catch`). */
  datatype NextReply = NextQuestion(id: int, text: string) | AllDone | Unreachable

  /** What `POST /api/answers` gives: success, an error status with its `error` field if any, or a network failure. */
  datatype SubmitReply = Stored | Refused(error: Option<string>) | NetworkFailure

  /**
   * The state of the page: the answered ids and their stored copy, the
   * question shown, the countdown (`timer` is the interval's handle, absent
   * when stopped), its colour, the screen, and the answer input.
   */
  datatype View = View(
    answeredIds: set<int>,
    saved: set<int>,
    currentQ: Option<Current>,
    timer: Option<nat>,
    timeLeft: int,
    color: Color,
    screen: Screen,
    inputValue: string,
    inputDisabled: bool,
    placeholder: string)

  /** `timerColor`: green above 15 seconds, orange above 8, red from 8 down. */
  function TimerColor(t: int): (c: Color)
    ensures c == Green <==> t > 15
    ensures c == Orange <==> 8 < t <= 15
    ensures c == Red <==> t <= 8
  {
    if t > 15 then Green else if t > 8 then Orange else Red
  }

  /** The page when the script starts: the ids read back from local storage, the welcome screen. */
  function Initial(stored: set<int>, placeholder: string): View {
    View(stored, stored, None, None, Duration, TimerColor(Duration), Welcome, "", false, placeholder)
  }

  /** `startTimer`: a full countdown, green, running under the new interval `handle`. */
  function Started(v: View, handle: nat): (w: View)
    ensures w.timer == Some(handle) && w.timeLeft == Duration && w.color == TimerColor(Duration)
  {
    v.(timeLeft := Duration, color := Green, timer := Some(handle))
  }

  /** `stopTimer`: no interval afterwards; nothing else changes. */
  function Stopped(v: View): (w: View)
    ensures w.timer == None
  {
    v.(timer := None)
  }

  /** One second of the countdown: a second less, its colour, and the timeout screen at zero. */
  function Ticked(v: View): (w: View)
    ensures w.timeLeft == v.timeLeft - 1 && w.color == TimerColor(w.timeLeft)
    ensures v.timeLeft - 1 <= 0 ==> w.timer == None && w.screen == TimedOut
    ensures v.timeLeft - 1 > 0 ==> w.timer == v.timer && w.screen == v.screen
    ensures w.answeredIds == v.answeredIds && w.currentQ == v.currentQ
  {
    var t := v.timeLeft - 1;
    var w := v.(timeLeft := t, color := TimerColor(t));
    if t <= 0 then Stopped(w).(screen := TimedOut) else w
  }

  /** Adds the current question to the answered ids and stores them. */
  function Remember(v: View): (w: View)
    ensures v.currentQ.Some? ==> w.answeredIds == v.answeredIds + {v.currentQ.value.id}
    ensures v.currentQ.None? ==> w == v
    ensures w.saved == w.answeredIds || w == v
  {
    match v.currentQ
    case None => v
    case Some(q) =>
      var ids := v.answeredIds + {q.id};
      v.(answeredIds := ids, saved := ids)
  }

  /**
   * `loadNext`: the countdown stops; a new question is shown with an empty,
   * usable input and a fresh countdown; with no question left, or when the
   * request fails, the last screen.
   */
  function Loaded(v: View, reply: NextReply, handle: nat): (w: View)
    ensures w.answeredIds == v.answeredIds && w.saved == v.saved
    ensures reply.NextQuestion? ==>
              && w.screen == QuestionScreen && w.currentQ == Some(Current(reply.id, reply.text))
              && w.inputValue == "" && !w.inputDisabled && w.timer == Some(handle) && w.timeLeft == Duration
    ensures !reply.NextQuestion? ==> w == Stopped(v).(screen := Done)
  {
    var s := Stopped(v);
    match reply
    case NextQuestion(id, text) =>
      Started(s.(currentQ := Some(Current(id, text)), inputValue := "", inputDisabled := false, screen := QuestionScreen), handle)
    case AllDone => s.(screen := Done)
    case Unreachable => s.(screen := Done)
  }

  /**
   * The body `submit` posts: the current question's id and the trimmed
   * input, which is then neither empty nor bordered by whitespace; nothing
   * when the input is blank or no question is shown.
   */
  function AnswerBody(v: View): (b: Option<(int, string)>)
    ensures b.None? <==> v.currentQ.None? || forall k :: 0 <= k < |v.inputValue| ==> IsJsWhitespace(v.inputValue[k])
    ensures b.Some? ==> b.value.0 == v.currentQ.value.id && b.value.1 == JsTrim(v.inputValue)
    ensures b.Some? ==> b.value.1 != [] && !IsJsWhitespace(b.value.1[0]) && !IsJsWhitespace(b.value.1[|b.value.1| - 1])
  {
    if JsTrim(v.inputValue) == [] || v.currentQ.None? then None
    else Some((v.currentQ.value.id, JsTrim(v.inputValue)))
  }

  /**
   * The end of `submit`, once the reply is in. Refused as incoherent, the
   * question is asked again with an empty, usable input, the hint and a full
   * countdown, and is not answered; after any other reply it counts as
   * answered, the stored ids follow, and the confirmation screen shows.
   */
  function Replied(v: View, reply: SubmitReply, handle: nat): (w: View)
    ensures reply == Refused(Some(Incoherent)) ==>
              && w.answeredIds == v.answeredIds && w.saved == v.saved && w.currentQ == v.currentQ && w.screen == v.screen
              && w.inputValue == "" && !w.inputDisabled && w.placeholder == RealAnswerHint
              && w.timer == Some(handle) && w.timeLeft == Duration
    ensures reply != Refused(Some(Incoherent)) ==>
              && w.screen == Registered && w.timer == v.timer && w.inputDisabled == v.inputDisabled && w.currentQ == v.currentQ
              && (v.currentQ.Some? ==> w.answeredIds == v.answeredIds + {v.currentQ.value.id} && w.saved == w.answeredIds)
  {
    if reply == Refused(Some(Incoherent)) then
      Started(v.(inputDisabled := false, inputValue := "", placeholder := RealAnswerHint), handle)
    else
      Remember(v).(screen := Registered)
  }

  /**
   * `submit`: nothing happens with a blank input or no question. Refused as
   * incoherent, the question is asked again with an empty input and a full
   * countdown; after any other reply, failures included, the question
   * counts as answered and the confirmation screen shows.
   */
  function Submitted(v: View, reply: SubmitReply, handle: nat): (w: View)
    ensures AnswerBody(v).None? ==> w == v
    ensures AnswerBody(v).Some? && reply == Refused(Some(Incoherent)) ==>
              && w.answeredIds == v.answeredIds && w.currentQ == v.currentQ && w.screen == v.screen
              && w.inputValue == "" && !w.inputDisabled && w.placeholder == RealAnswerHint
              && w.timer == Some(handle) && w.timeLeft == Duration
    ensures AnswerBody(v).Some? && reply != Refused(Some(Incoherent)) ==>
              && w.answeredIds == v.answeredIds + {v.currentQ.value.id} && w.saved == w.answeredIds
              && w.screen == Registered && w.timer == None && w.inputDisabled
  {
    if AnswerBody(v).None? then v
    else Replied(Stopped(v).(inputDisabled := true), reply, handle)
  }

  /** `skip`: the countdown stops, the current question counts as answered, and the next one loads. */
  function Skipped(v: View, reply: NextReply, handle: nat): (w: View)
    ensures w == Loaded(Remember(Stopped(v)), reply, handle)
    ensures v.currentQ.Some? ==> w.answeredIds == v.answeredIds + {v.currentQ.value.id}
  {
    Loaded(Remember(Stopped(v)), reply, handle)
  }

  // ---------------------------------------------------------------- events

  /** What the player or the page's interval can do. */
  datatype Event =
    | StartClicked(next: NextReply, handle: nat)
    | Typed(value: string)
    | SubmitClicked(reply: SubmitReply, handle: nat)
    | SkipClicked(next: NextReply, handle: nat)
    | NextClicked(next: NextReply, handle: nat)
    | TimeoutNextClicked(next: NextReply, handle: nat)
    | Second

  /**
   * Whether the event can happen: each button lives on one screen and only
   * the visible screen can be clicked; the input takes keys while enabled;
   * the interval fires only while it runs.
   */
  predicate Enabled(v: View, e: Event) {
    match e
    case StartClicked(_, _) => v.screen == Welcome
    case Typed(_) => v.screen == QuestionScreen && !v.inputDisabled
    case SubmitClicked(_, _) => v.screen == QuestionScreen
    case SkipClicked(_, _) => v.screen == QuestionScreen
    case NextClicked(_, _) => v.screen == Registered
    case TimeoutNextClicked(_, _) => v.screen == TimedOut
    case Second => v.timer.Some?
  }

  /** The handlers wired at the end of the script; an event that cannot happen changes nothing. */
  function Step(v: View, e: Event): View {
    if !Enabled(v, e) then v
    else
      match e
      case StartClicked(next, h) => Loaded(v, next, h)
      case Typed(value) => v.(inputValue := value)
      case SubmitClicked(reply, h) => Submitted(v, reply, h)
      case SkipClicked(next, h) => Skipped(v, next, h)
      case NextClicked(next, h) => Loaded(v, next, h)
      case TimeoutNextClicked(next, h) => Skipped(v, next, h)
      case Second => Ticked(v)
  }

  /** The page after a run of events. */
  function Run(v: View, es: seq<Event>): View
    decreases |es|
  {
    if es == [] then v else Run(Step(v, es[0]), es[1..])
  }

  /**
   * What holds of the page at all times: the stored ids are the answered
   * ids; the countdown runs exactly while a question is on screen, and then
   * has 1 to 30 seconds left; the colour matches the seconds left; a
   * question screen has its question and a usable input.
   */
  predicate Inv(v: View) {
    && v.saved == v.answeredIds
    && (v.timer.Some? <==> v.screen == QuestionScreen)
    && (v.timer.Some? ==> 0 < v.timeLeft <= Duration)
    && v.color == TimerColor(v.timeLeft)
    && (v.screen == QuestionScreen ==> v.currentQ.Some? && !v.inputDisabled)
  }

  lemma InitialInv(stored: set<int>, placeholder: string)
    ensures Inv(Initial(stored, placeholder))
  {
  }

  /** Every event keeps the invariant, and no id ever leaves the answered set. */
  lemma StepKeepsInv(v: View, e: Event)
    requires Inv(v)
    ensures Inv(Step(v, e))
    ensures v.answeredIds <= Step(v, e).answeredIds
  {
    if Enabled(v, e) && e.SubmitClicked? && AnswerBody(v).Some? && e.reply != Refused(Some(Incoherent)) {
      assert Step(v, e).screen == Registered;
    }
  }

  /** Along any run of events the invariant holds and the answered set only grows. */
  lemma {:induction false} RunKeepsInv(v: View, es: seq<Event>)
    requires Inv(v)
    ensures Inv(Run(v, es))
    ensures v.answeredIds <= Run(v, es).answeredIds
    decreases |es|
  {
    if es != [] {
      StepKeepsInv(v, es[0]);
      RunKeepsInv(Step(v, es[0]), es[1..]);
    }
  }

  /** `n` seconds of the countdown. */
  function Ticks(v: View, n: nat): View
    decreases n
  {
    if n == 0 then v else Ticks(Ticked(v), n - 1)
  }

  /** Before it reaches zero, the countdown only lowers the seconds left and recolours them. */
  lemma {:induction false} Countdown(v: View, n: nat)
    requires v.color == TimerColor(v.timeLeft)
    requires n < v.timeLeft
    ensures Ticks(v, n) == v.(timeLeft := v.timeLeft - n, color := TimerColor(v.timeLeft - n))
    decreases n
  {
    if n > 0 {
      Countdown(Ticked(v), n - 1);
    }
  }

  /**
   * A question left unanswered times out after exactly thirty seconds: the
   * countdown runs for 29 seconds and the thirtieth stops it on the timeout
   * screen, in red, at zero.
   */
  lemma TimeoutAfterDuration(v: View, handle: nat)
    ensures forall n: nat :: n < Duration ==> Ticks(Started(v, handle), n).timer == Some(handle)
    ensures Ticks(Started(v, handle), Duration as nat)
            == Started(v, handle).(timeLeft := 0, color := Red, timer := None, screen := TimedOut)
  {
    var w := Started(v, handle);
    forall n: nat | n < Duration ensures Ticks(w, n).timer == Some(handle) {
      Countdown(w, n);
    }
    Countdown(w, Duration as nat - 1);
    TicksSplit(w, Duration as nat - 1);
  }

  lemma {:induction false} TicksSplit(v: View, n: nat)
    ensures Ticks(v, n + 1) == Ticked(Ticks(v, n))
    decreases n
  {
    if n > 0 {
      TicksSplit(Ticked(v), n - 1);
    }
  }

  /** `stopTimer` twice is `stopTimer` once. */
  lemma StopIdempotent(v: View)
    ensures Stopped(Stopped(v)) == Stopped(v)
  {
  }

  /**
   * What the server makes of a body the page posts: never the 400 for a
   * missing or non-string text, and it is stored exactly as sent whenever
   * it fits in 200 UTF-16 code units.
   */
  lemma ServerTakesBody(v: View)
    requires AnswerBody(v).Some? && AnswerBody(v).value.0 != 0
    ensures var (id, text) := AnswerBody(v).value;
            var check := Server.CheckAnswer(id, Server.Str(text));
            && (check.Refused? ==> check.message != Server.InvalidAnswer)
            && (check.Accepted? <==> Utf16Length(text) <= Server.MaxAnswerLength)
            && (check.Accepted? ==> check.value == text)
  {
    TrimIdempotent(v.inputValue, IsJsWhitespace);
  }

  // ---------------------------------------------------------------- the page

  /** The page's variables and the parts of the page the script changes. */
  class Client {
    var answeredIds: set<int>
    var saved: set<int>
    var currentQ: Option<Current>
    var timer: Option<nat>
    var timeLeft: int
    var color: Color
    var screen: Screen
    var inputValue: string
    var inputDisabled: bool
    var placeholder: string

    function State(): View
      reads this
    {
      View(answeredIds, saved, currentQ, timer, timeLeft, color, screen, inputValue, inputDisabled, placeholder)
    }

    /** The script's start: `answeredIds` read back from local storage. */
    constructor(stored: set<int>, initialPlaceholder: string)
      ensures State() == Initial(stored, initialPlaceholder)
    {
      answeredIds, saved := stored, stored;
      currentQ, timer := None, None;
      timeLeft, color := Duration, TimerColor(Duration);
      screen := Welcome;
      inputValue, inputDisabled, placeholder := "", false, initialPlaceholder;
    }

    method StartTimer(handle: nat)
      modifies this
      ensures State() == Started(old(State()), handle)
    {
      timeLeft := Duration;
      color := Green;
      timer := Some(handle);
    }

    /** The interval's callback, once a second. */
    method Tick()
      modifies this
      ensures State() == Ticked(old(State()))
    {
      timeLeft := timeLeft - 1;
      color := TimerColor(timeLeft);
      if timeLeft <= 0 {
        StopTimer();
        screen := TimedOut;
      }
    }

    method StopTimer()
      modifies this
      ensures State() == Stopped(old(State()))
    {
      if timer.Some? {
        timer := None;
      }
    }

    method LoadNext(reply: NextReply, handle: nat)
      modifies this
      ensures State() == Loaded(old(State()), reply, handle)
    {
      StopTimer();
      match reply
      case AllDone =>
        screen := Done;
      case Unreachable =>
        screen := Done;
      case NextQuestion(id, text) =>
        currentQ := Some(Current(id, text));
        inputValue := "";
        inputDisabled := false;
        screen := QuestionScreen;
        StartTimer(handle);
    }

    method Submit(reply: SubmitReply, handle: nat)
      modifies this
      ensures State() == Submitted(old(State()), reply, handle)
    {
      var val := JsTrim(inputValue);
      if val == [] || currentQ.None? {
        return;
      }
      StopTimer();
      inputDisabled := true;
      Reply(reply, handle);
    }

    /** What `submit` does once `fetch` has answered. */
    method Reply(reply: SubmitReply, handle: nat)
      modifies this
      ensures State() == Replied(old(State()), reply, handle)
    {
      if reply == Refused(Some(Incoherent)) {
        inputDisabled, inputValue, placeholder := false, "", RealAnswerHint;
        StartTimer(handle);
        return;
      }
      if currentQ.Some? {
        var ids := answeredIds + {currentQ.value.id};
        answeredIds, saved := ids, ids;
      }
      screen := Registered;
    }

    method Skip(reply: NextReply, handle: nat)
      modifies this
      ensures State() == Skipped(old(State()), reply, handle)
    {
      StopTimer();
      if currentQ.Some? {
        answeredIds := answeredIds + {currentQ.value.id};
        saved := answeredIds;
      }
      LoadNext(reply, handle);
    }

    /** The handlers wired to the buttons, the input and the interval. */
    method Handle(e: Event)
      modifies this
      ensures State() == Step(old(State()), e)
    {
      if !Enabled(State(), e) {
        return;
      }
      match e
      case StartClicked(next, h) => LoadNext(next, h);
      case Typed(value) => inputValue := value;
      case SubmitClicked(reply, h) => Submit(reply, h);
      case SkipClicked(next, h) => Skip(next, h);
      case NextClicked(next, h) => LoadNext(next, h);
      case TimeoutNextClicked(next, h) => Skip(next, h);
      case Second => Tick();
    }
  }
}
