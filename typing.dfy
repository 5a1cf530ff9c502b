/**
 * The hero banner's typing effect: a timer callback that types the current
 * role one character per tick, pauses, deletes it one character per tick,
 * pauses again and moves on to the next role, for ever.  The closure state
 * (roleIndex, charIndex, isDeleting, typingDelay) and the subtitle's text
 * become the fields of a class; each timer callback is one call of Tick, and
 * the delay it leaves behind is the time until the next call.
 */
module Typing {
  import opened Unicode

  /** The roles the banner cycles through. */
  const Roles: seq<JsString> := [
    Ascii("Senior Software Developer"),
    Ascii("Full Stack Developer"),
    Ascii("JavaScript Expert"),
    Ascii("React Specialist"),
    Ascii("Node.js Developer"),
    Ascii("Technical Lead")
  ]

  const TypeDelay := 100      // ms between typed characters
  const DeleteDelay := 50     // ms between deleted characters
  const PauseAtEnd := 2000    // ms shown in full before deleting starts
  const PauseBeforeNext := 500  // ms empty before the next role starts

  /** Roles the machine can cycle through: at least one, none empty. */
  predicate ValidRoles(roles: seq<JsString>) {
    |roles| > 0 && forall i | 0 <= i < |roles| :: |roles[i]| > 0
  }

  lemma RolesAreValid()
    ensures ValidRoles(Roles) && |Roles| == 6
  {
  }

  /** The closure state of the effect and the text shown in the subtitle. */
  datatype TypingState = TypingState(roleIndex: int, charIndex: int, isDeleting: bool, delay: int, text: JsString)

  /** JavaScript s.substring(0, end): the end is clamped into 0..|s|. */
  function SubstringTo(s: JsString, end: int): JsString {
    s[..if end < 0 then 0 else if end > |s| then |s| else end]
  }

  /**
   * The reachable states: typing shows fewer characters than the role has,
   * deleting shows at least one.
   */
  predicate Inv(roles: seq<JsString>, s: TypingState) {
    && 0 <= s.roleIndex < |roles|
    && (if s.isDeleting then 1 <= s.charIndex <= |roles[s.roleIndex]|
        else 0 <= s.charIndex < |roles[s.roleIndex]|)
  }

  /** The state the effect starts from, with whatever the subtitle showed before. */
  function Start(text: JsString): TypingState {
    TypingState(0, 0, false, TypeDelay, text)
  }

  /**
   * One call of `type`: show one character more or one fewer, then switch to
   * deleting at the end of the role or to the next role when nothing is left.
   * From a reachable state it reaches a reachable state, and afterwards the
   * subtitle shows exactly the first charIndex characters of the current role.
   */
  function Step(roles: seq<JsString>, s: TypingState): (r: TypingState)
    requires 0 <= s.roleIndex < |roles|
    ensures ValidRoles(roles) && Inv(roles, s) ==>
      Inv(roles, r) && r.text == roles[r.roleIndex][..r.charIndex]
  {
    var role := roles[s.roleIndex];
    var text := if s.isDeleting then SubstringTo(role, s.charIndex - 1) else SubstringTo(role, s.charIndex + 1);
    var charIndex := if s.isDeleting then s.charIndex - 1 else s.charIndex + 1;
    if !s.isDeleting && charIndex == |role| then
      TypingState(s.roleIndex, charIndex, true, PauseAtEnd, text)
    else if s.isDeleting && charIndex == 0 then
      TypingState((s.roleIndex + 1) % |roles|, charIndex, false, PauseBeforeNext, text)
    else
      TypingState(s.roleIndex, charIndex, s.isDeleting, if s.isDeleting then DeleteDelay else TypeDelay, text)
  }

  /** The state after `n` ticks from a reachable state; every state on the way is reachable. */
  function Run(roles: seq<JsString>, s: TypingState, n: nat): (r: TypingState)
    requires ValidRoles(roles) && Inv(roles, s)
    ensures Inv(roles, r)
    ensures n > 0 ==> r.text == roles[r.roleIndex][..r.charIndex]
  {
    if n == 0 then s else Step(roles, Run(roles, s, n - 1))
  }

  /** Running for a + b ticks is running a ticks and then b more. */
  lemma {:induction false} RunAdd(roles: seq<JsString>, s: TypingState, a: nat, b: nat)
    requires ValidRoles(roles) && Inv(roles, s)
    ensures Run(roles, s, a + b) == Run(roles, Run(roles, s, a), b)
  {
    if b > 0 {
      RunAdd(roles, s, a, b - 1);
    }
  }

  /**
   * Typing a role: from (r, 0, typing), after k ticks the first k characters
   * show; the k-th tick of a role of length k switches to deleting with the
   * long pause, every earlier one waits the typing delay.
   */
  lemma {:induction false} TypingPhase(roles: seq<JsString>, s: TypingState, k: nat)
    requires ValidRoles(roles) && Inv(roles, s)
    requires s.charIndex == 0 && !s.isDeleting
    requires 1 <= k <= |roles[s.roleIndex]|
    ensures var role := roles[s.roleIndex];
      Run(roles, s, k) ==
        TypingState(s.roleIndex, k, k == |role|, if k == |role| then PauseAtEnd else TypeDelay, role[..k])
  {
    if k > 1 {
      TypingPhase(roles, s, k - 1);
    }
  }

  /**
   * Deleting a role: from (r, |role|, deleting), after k ticks |role| - k
   * characters show; the last tick moves to the next role, empty and typing,
   * with the short pause.
   */
  lemma {:induction false} DeletingPhase(roles: seq<JsString>, s: TypingState, k: nat)
    requires ValidRoles(roles) && Inv(roles, s)
    requires s.isDeleting && s.charIndex == |roles[s.roleIndex]|
    requires 1 <= k <= |roles[s.roleIndex]|
    ensures var role := roles[s.roleIndex];
      Run(roles, s, k) ==
        if k < |role| then TypingState(s.roleIndex, |role| - k, true, DeleteDelay, role[..|role| - k])
        else TypingState((s.roleIndex + 1) % |roles|, 0, false, PauseBeforeNext, [])
  {
    if k > 1 {
      DeletingPhase(roles, s, k - 1);
    }
  }

  /**
   * One full cycle: 2 * |role| ticks after starting to type role r, the
   * subtitle is empty and the effect starts typing role (r + 1) mod |roles|.
   */
  lemma RoleCycle(roles: seq<JsString>, s: TypingState)
    requires ValidRoles(roles) && Inv(roles, s)
    requires s.charIndex == 0 && !s.isDeleting
    ensures var n := |roles[s.roleIndex]|;
      Run(roles, s, 2 * n) == TypingState((s.roleIndex + 1) % |roles|, 0, false, PauseBeforeNext, [])
  {
    var n := |roles[s.roleIndex]|;
    TypingPhase(roles, s, n);
    RunAdd(roles, s, n, n);
    DeletingPhase(roles, Run(roles, s, n), n);
  }

  lemma SmallModulus(x: int, n: int)
    requires 0 <= x < n
    ensures x % n == x && n % n == 0
  {
  }

  lemma MultiplyStep(m: int, p: int)
    ensures (m - 1) * p + p == m * p
  {
  }

  /** Ticks needed to type and delete the first j roles. */
  function Period(roles: seq<JsString>, j: nat): nat
    requires j <= |roles|
  {
    if j == 0 then 0 else Period(roles, j - 1) + 2 * |roles[j - 1]|
  }

  /**
   * After typing and deleting the first j roles, starting to type the first
   * role, the effect is about to type role j mod |roles|; after all of them
   * it is back at the first role.
   */
  lemma {:induction false} RolesInOrder(roles: seq<JsString>, s: TypingState, j: nat)
    requires ValidRoles(roles) && Inv(roles, s)
    requires s.roleIndex == 0 && s.charIndex == 0 && !s.isDeleting
    requires 1 <= j <= |roles|
    ensures Run(roles, s, Period(roles, j)) == TypingState(j % |roles|, 0, false, PauseBeforeNext, [])
  {
    if j == 1 {
      RoleCycle(roles, s);
    } else {
      var a, b := Period(roles, j - 1), 2 * |roles[j - 1]|;
      RolesInOrder(roles, s, j - 1);
      SmallModulus(j - 1, |roles|);
      var mid := Run(roles, s, a);
      assert mid == TypingState(j - 1, 0, false, PauseBeforeNext, []);
      RoleCycle(roles, mid);
      assert Run(roles, mid, b) == TypingState(j % |roles|, 0, false, PauseBeforeNext, []);
      RunAdd(roles, s, a, b);
      assert Period(roles, j) == a + b;
    }
  }

  /** The state reached after each full rotation through the roles. */
  function Rotated(): TypingState {
    TypingState(0, 0, false, PauseBeforeNext, [])
  }

  /**
   * The effect never stops: after m >= 1 full rotations through the roles
   * from the start it is about to type the first role again, with the
   * subtitle empty.
   */
  lemma {:induction false} Rotations(roles: seq<JsString>, text: JsString, m: nat)
    requires ValidRoles(roles) && m >= 1
    ensures Run(roles, Start(text), m * Period(roles, |roles|)) == Rotated()
  {
    var p := Period(roles, |roles|);
    SmallModulus(0, |roles|);
    if m == 1 {
      RolesInOrder(roles, Start(text), |roles|);
    } else {
      Rotations(roles, text, m - 1);
      RunAdd(roles, Start(text), (m - 1) * p, p);
      RolesInOrder(roles, Rotated(), |roles|);
      MultiplyStep(m, p);
    }
  }

  /** The effect on the page. */
  class TypingEffect {
    var roleIndex: int
    var charIndex: int
    var isDeleting: bool
    var typingDelay: int
    /** The subtitle's textContent. */
    var text: JsString

    function State(): TypingState
      reads this
    {
      TypingState(roleIndex, charIndex, isDeleting, typingDelay, text)
    }

    predicate Valid()
      reads this
    {
      Inv(Roles, State())
    }

    /** The closure as initTypingEffect sets it up; the subtitle keeps its markup text until the first tick. */
    constructor (initialText: JsString)
      ensures Valid() && State() == Start(initialText)
    {
      roleIndex, charIndex, isDeleting, typingDelay := 0, 0, false, TypeDelay;
      text := initialText;
    }

    /** One timer callback. */
    method Tick()
      requires Valid()
      modifies this
      ensures Valid() && State() == Step(Roles, old(State()))
      ensures text == Roles[roleIndex][..charIndex]
    {
      RolesAreValid();
      var currentRole := Roles[roleIndex];
      if isDeleting {
        text := SubstringTo(currentRole, charIndex - 1);
        charIndex := charIndex - 1;
        typingDelay := DeleteDelay;
      } else {
        text := SubstringTo(currentRole, charIndex + 1);
        charIndex := charIndex + 1;
        typingDelay := TypeDelay;
      }
      if !isDeleting && charIndex == |currentRole| {
        typingDelay := PauseAtEnd;
        isDeleting := true;
      } else if isDeleting && charIndex == 0 {
        isDeleting := false;
        roleIndex := (roleIndex + 1) % |Roles|;
        typingDelay := PauseBeforeNext;
      }
    }
  }
}
