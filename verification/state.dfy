/** The 12-state machine of LzmaSpec.js (`updateState_Literal`, `_Match`,
    `_Rep`, `_ShortRep`) and what a state remembers: the kinds of the last
    few packets decoded.
 */
module LzmaState {
  const NumStates: nat := 12

  type State = s: nat | s < 12

  /** The four kinds of packet the main loop can decode (the end marker ends
      the loop, so it never reaches the state machine). */
  datatype Kind = Literal | Match | Rep | ShortRep

  /** After a literal the state is one of the literal states 0..6 */
  function UpdateLiteral(s: State): (r: State)
    ensures r < 7
  {
    if s < 4 then 0 else if s < 10 then s - 3 else s - 6
  }

  /** After a match: 7 if a literal came before, 10 otherwise */
  function UpdateMatch(s: State): (r: State)
    ensures r == 7 || r == 10
    ensures r == 7 <==> s < 7
  {
    if s < 7 then 7 else 10
  }

  function UpdateRep(s: State): (r: State)
    ensures r == 8 || r == 11
    ensures r == 8 <==> s < 7
  {
    if s < 7 then 8 else 11
  }

  function UpdateShortRep(s: State): (r: State)
    ensures r == 9 || r == 11
    ensures r == 9 <==> s < 7
  {
    if s < 7 then 9 else 11
  }

  /** The state after one packet of kind `k` */
  function Update(s: State, k: Kind): (r: State)
    ensures r < 7 <==> k == Literal
  {
    match k
    case Literal => UpdateLiteral(s)
    case Match => UpdateMatch(s)
    case Rep => UpdateRep(s)
    case ShortRep => UpdateShortRep(s)
  }

  /** The state the main loop holds after the packets `h`, starting from 0 */
  function Run(h: seq<Kind>): State {
    if |h| == 0 then 0 else Update(Run(h[..|h| - 1]), h[|h| - 1])
  }

  /** Whether the packet `back` places before the end of `h` is a literal,
      the start of the stream counting as one. */
  predicate LitBefore(h: seq<Kind>, back: nat) {
    back >= |h| || h[|h| - 1 - back] == Literal
  }

  /** The meaning of each state, from the packet history alone: 0..6 follow a
      literal, 7..9 a match / rep / short rep after a literal, 10 a match and
      11 a rep or short rep after a non-literal.  Among the states after a
      literal, 1..3 record a match / rep / short rep two packets back, 4..6
      one packet back.  A short rep that followed a non-literal is remembered
      as a rep (state 11 does not tell them apart). */
  function Classify(h: seq<Kind>): State {
    if |h| == 0 then 0
    else
      match h[|h| - 1]
      case Match => if LitBefore(h, 1) then 7 else 10
      case Rep => if LitBefore(h, 1) then 8 else 11
      case ShortRep => if LitBefore(h, 1) then 9 else 11
      case Literal =>
        if |h| == 1 then 0
        else if h[|h| - 2] != Literal then
          AfterLiteral(h[|h| - 2], LitBefore(h, 2), 4)
        else if |h| == 2 then 0
        else if h[|h| - 3] != Literal then
          AfterLiteral(h[|h| - 3], LitBefore(h, 3), 1)
        else 0
  }

  /** `first`, `first + 1` or `first + 2` for a match, rep or short rep that
      is followed by literals; a short rep after a non-literal counts as rep. */
  function AfterLiteral(k: Kind, litBefore: bool, first: nat): nat {
    match k
    case Match => first
    case Rep => first + 1
    case ShortRep => if litBefore then first + 2 else first + 1
    case Literal => 0
  }

  /** Running the update functions over a packet history yields exactly the
      state `Classify` reads off that history. */
  lemma {:induction false} RunIsClassify(h: seq<Kind>)
    ensures Run(h) == Classify(h)
    decreases |h|
  {
    if |h| > 0 {
      var p := h[..|h| - 1];
      RunIsClassify(p);
      if |p| > 0 {
        assert p[|p| - 1] == h[|h| - 2];
        assert |p| > 1 ==> p[|p| - 2] == h[|h| - 3];
        assert |p| > 2 ==> p[|p| - 3] == h[|h| - 4];
      }
    }
  }

  /** The states below 7 are exactly those reached by a literal (or the
      start); this is the test that selects the matched-literal coder. */
  lemma {:induction false} AfterLiteralIff(h: seq<Kind>)
    ensures Run(h) < 7 <==> LitBefore(h, 0)
  {
    RunIsClassify(h);
  }

  /** The state after the packets `h`, starting from `s` (the main loop's
      order: first packet first) */
  function Replay(s: State, h: seq<Kind>): State
    decreases |h|
  {
    if |h| == 0 then s else Replay(Update(s, h[0]), h[1..])
  }

  /** Replaying `b` after the history `a` is running the whole history */
  lemma {:induction false} ReplayRun(a: seq<Kind>, b: seq<Kind>)
    ensures Replay(Run(a), b) == Run(a + b)
    decreases |b|
  {
    if |b| > 0 {
      var a' := a + [b[0]];
      assert a'[..|a'| - 1] == a && a'[|a'| - 1] == b[0];
      assert Run(a') == Update(Run(a), b[0]);
      ReplayRun(a', b[1..]);
      assert a' + b[1..] == a + b;
    } else {
      assert a + b == a;
    }
  }

  /** From the initial state, replaying is `Run` */
  lemma ReplayFromStart(h: seq<Kind>)
    ensures Replay(0, h) == Run(h)
  {
    ReplayRun([], h);
    assert [] + h == h;
  }
}
