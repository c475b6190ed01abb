/** Pointer handling of the lock screen (crates/ui/src/shell/pointer.rs): power buttons act on release, and those that
    ask for confirmation act on a second click within five seconds.  Instants are in milliseconds. */
module PowerButtons {
  import opened Options

  const POWER_CONFIRMATION_TIMEOUT: nat := 5_000

  datatype Action = Suspend | Reboot | Poweroff

  datatype Button = Button(action: Action, enabled: bool, confirm: bool)

  datatype Theme = Theme(buttons: seq<Button>, revealOnInteraction: bool)

  datatype Confirmation = Confirmation(action: Action, expiresAt: nat)

  /** The fields the pointer handlers touch.  `pending` is the status while an authentication is in flight. */
  datatype Shell = Shell(pending: bool, authRevealed: bool, secretSelected: bool, revealSecret: bool,
                         toggleHovered: bool, togglePressed: bool,
                         hovered: Option<Action>, pressed: Option<Action>, power: Power)

  /** The click waiting to be confirmed, and the action asked for. */
  datatype Power = Power(confirmation: Option<Confirmation>, requested: Option<Action>)

  /** Where the pointer is: over a power button, over the reveal toggle. */
  datatype Spot = Spot(button: Option<Action>, toggle: bool)

  /** The clock readings of one release: on entry, when a button acts, and when it looks for a confirmation. */
  datatype Clock = Clock(entry: nat, acting: nat, checking: nat)

  datatype Event =
    | Motion(spot: Spot)
    | Leave
    | Press(spot: Spot, now: nat)
    | Release(spot: Spot, clock: Clock)
    | Take
    | Tick(now: nat)
    /** Keys and authentication answers: they leave the power buttons alone and may let go of the toggle. */
    | Other(pending: bool, authRevealed: bool, secretSelected: bool, revealSecret: bool, letGo: bool)

  function FindButton(buttons: seq<Button>, action: Action): (found: Option<Button>)
    ensures found.Some? ==> found.value in buttons && found.value.action == action && found.value.enabled
    ensures found.None? ==> forall b <- buttons :: b.action == action ==> !b.enabled
  {
    if buttons == [] then None
    else if buttons[0].action == action && buttons[0].enabled then Some(buttons[0])
    else FindButton(buttons[1..], action)
  }

  function InputVisible(s: Shell, theme: Theme): bool {
    s.authRevealed || !theme.revealOnInteraction
  }

  function Idle(s: Shell): Shell {
    s.(toggleHovered := false, togglePressed := false, hovered := None, pressed := None)
  }

  function WasActive(s: Shell): bool {
    s.toggleHovered || s.togglePressed || s.hovered.Some? || s.pressed.Some?
  }

  function Unexpired(power: Power, now: nat): Power {
    if power.confirmation.Some? && now > power.confirmation.value.expiresAt then power.(confirmation := None) else power
  }

  function ClearExpired(s: Shell, now: nat): Shell {
    s.(power := Unexpired(s.power, now))
  }

  /** `reveal_auth`: whether there was something to reveal. */
  predicate Reveals(s: Shell, theme: Theme) {
    !s.authRevealed && theme.revealOnInteraction
  }

  function Activated(power: Power, theme: Theme, action: Action, clock: Clock): Power {
    var button := FindButton(theme.buttons, action);
    if button.None? then power
    else if Acts(button.value, power.confirmation, clock) then Power(None, Some(action))
    else power.(confirmation := Some(Confirmation(action, clock.acting + POWER_CONFIRMATION_TIMEOUT)))
  }

  /** A button without confirmation acts at once, one with confirmation when armed for it in time. */
  predicate Acts(button: Button, armed: Option<Confirmation>, clock: Clock) {
    !button.confirm || (armed.Some? && clock.checking <= armed.value.expiresAt && armed.value.action == button.action)
  }

  // ---- The handlers: new state, and whether to redraw

  function Moved(s: Shell, theme: Theme, spot: Spot): (Shell, bool) {
    if s.pending then (Idle(s), WasActive(s))
    else
      var hovered := InputVisible(s, theme) && spot.button.None? && spot.toggle;
      var t := s.(toggleHovered := hovered, hovered := spot.button);
      if !hovered && s.togglePressed then (t.(togglePressed := false), true)
      else if s.pressed.Some? && s.pressed != spot.button then (t.(pressed := None), true)
      else (t, s.toggleHovered != hovered || s.hovered != spot.button)
  }

  function Pressed(s: Shell, theme: Theme, spot: Spot, now: nat): (Shell, bool) {
    if s.pending then (Idle(s), WasActive(s))
    else
      var t := ClearExpired(s, now);
      if spot.button.Some? then
        (t.(hovered := spot.button, pressed := spot.button, toggleHovered := false, togglePressed := false),
         s.pressed != spot.button || s.hovered != spot.button)
      else if Reveals(t, theme) then
        (t.(authRevealed := true), true)
      else
        (t.(secretSelected := false, toggleHovered := spot.toggle, togglePressed := spot.toggle,
            hovered := None, pressed := None),
         s.secretSelected || s.togglePressed != spot.toggle || s.toggleHovered != spot.toggle
         || s.hovered.Some? || s.pressed.Some?)
  }

  function Released(s: Shell, theme: Theme, spot: Spot, clock: Clock): (Shell, bool) {
    if s.pending then (Idle(s), WasActive(s))
    else
      var t := ClearExpired(s, clock.entry);
      if t.pressed.Some? && t.pressed == spot.button then
        (t.(power := Activated(t.power, theme, t.pressed.value, clock),
            pressed := None, hovered := spot.button, toggleHovered := false, togglePressed := false),
         true)
      else
        ReleasedElsewhere(t, theme, spot)
  }

  /** A release that clicks no power button: it may reveal the password field, or click the reveal toggle. */
  function ReleasedElsewhere(s: Shell, theme: Theme, spot: Spot): (Shell, bool) {
    if Reveals(s, theme) then (s.(authRevealed := true), true)
    else
      var hovered := InputVisible(s, theme) && spot.button.None? && spot.toggle;
      var toggled := s.togglePressed && hovered;
      (s.(togglePressed := false, toggleHovered := hovered, hovered := spot.button, pressed := None,
          revealSecret := if toggled then !s.revealSecret else s.revealSecret),
       s.togglePressed || s.toggleHovered != hovered || s.hovered != spot.button || s.pressed.Some? || toggled)
  }

  function Step(s: Shell, theme: Theme, event: Event): (Shell, bool) {
    match event
    case Motion(spot) => Moved(s, theme, spot)
    case Leave => (Idle(s), WasActive(s))
    case Press(spot, now) => Pressed(s, theme, spot, now)
    case Release(spot, clock) => Released(s, theme, spot, clock)
    case Take => (s.(power := s.power.(requested := None)), false)
    case Tick(now) => (ClearExpired(s, now), ClearExpired(s, now) != s)
    case Other(pending, authRevealed, secretSelected, revealSecret, letGo) =>
      (s.(pending := pending, authRevealed := authRevealed, secretSelected := secretSelected,
                 revealSecret := revealSecret,
          toggleHovered := s.toggleHovered && !letGo, togglePressed := s.togglePressed && !letGo), true)
  }

  function Run(s: Shell, theme: Theme, events: seq<Event>): Shell {
    if events == [] then s else Step(Run(s, theme, events[..|events| - 1]), theme, events[|events| - 1]).0
  }

  // ---- Redraws

  /** Never both a power button and the toggle. */
  ghost predicate Exclusive(s: Shell) {
    !(s.hovered.Some? && s.toggleHovered) && !(s.pressed.Some? && s.togglePressed)
  }

  /** All that shows is as it was; a confirmation that is over may be gone. */
  ghost predicate LooksTheSame(s: Shell, next: Shell) {
    next == s.(power := s.power.(confirmation := next.power.confirmation))
  }

  lemma RedrawIffMoved(s: Shell, theme: Theme, spot: Spot)
    requires Exclusive(s)
    ensures var (next, redraw) := Moved(s, theme, spot); Exclusive(next) && (redraw <==> !LooksTheSame(s, next))
  {
  }

  lemma RedrawIffPressed(s: Shell, theme: Theme, spot: Spot, now: nat)
    requires Exclusive(s)
    ensures var (next, redraw) := Pressed(s, theme, spot, now); Exclusive(next) && (redraw <==> !LooksTheSame(s, next))
  {
  }

  lemma RedrawIffReleased(s: Shell, theme: Theme, spot: Spot, clock: Clock)
    requires Exclusive(s)
    ensures var (next, redraw) := Released(s, theme, spot, clock);
            Exclusive(next) && (redraw <==> !LooksTheSame(s, next))
  {
  }

  predicate IsPointerEvent(event: Event) {
    event.Motion? || event.Leave? || event.Press? || event.Release?
  }

  /** A pointer event asks for a redraw exactly when it changes something that shows, and a tick exactly when it drops
      a confirmation. */
  lemma RedrawIff(s: Shell, theme: Theme, event: Event)
    requires Exclusive(s)
    ensures Exclusive(Step(s, theme, event).0)
    ensures IsPointerEvent(event) ==> (Step(s, theme, event).1 <==> !LooksTheSame(s, Step(s, theme, event).0))
    ensures event.Tick? ==> (Step(s, theme, event).1 <==> Step(s, theme, event).0 != s)
  {
    match event {
      case Motion(spot) => RedrawIffMoved(s, theme, spot);
      case Press(spot, now) => RedrawIffPressed(s, theme, spot, now);
      case Release(spot, clock) => RedrawIffReleased(s, theme, spot, clock);
      case _ =>
    }
  }

  // ---- Where the pointer is

  /** The password field is hidden, and the press or release clicks no power button: it reveals the field. */
  predicate OnlyReveals(s: Shell, theme: Theme, event: Event) {
    && !s.pending && !s.authRevealed && theme.revealOnInteraction
    && match event
       case Press(spot, _) => spot.button.None?
       case Release(spot, _) => s.pressed.None? || s.pressed != spot.button
       case _ => false
  }

  /** What is left of `s` with confirmation and request set aside. */
  function Rest(s: Shell): Shell {
    s.(power := Power(None, None))
  }

  /** One description of all three handlers.  An event that does not just reveal the field leaves the pointer's own
      button hovered, and the toggle if the field shows and no button is there.  A press presses what is hovered and
      unselects the secret unless it is on a button, a motion lets go of what is hovered no longer, and a release lets
      go of everything; over the pressed toggle it also switches what the secret shows. */
  function PointedAt(s: Shell, theme: Theme, event: Event): Shell
    requires event.Motion? || event.Press? || event.Release?
  {
    var over := event.spot.button.None? && event.spot.toggle && (s.authRevealed || !theme.revealOnInteraction);
    if OnlyReveals(s, theme, event) then s.(authRevealed := true)
    else
      s.(hovered := event.spot.button, toggleHovered := over,
         pressed := if event.Press? then event.spot.button
                    else if event.Motion? && s.pressed == event.spot.button then s.pressed
                    else None,
         togglePressed := over && (event.Press? || (event.Motion? && s.togglePressed)),
         secretSelected := s.secretSelected && !(event.Press? && event.spot.button.None?),
         revealSecret := s.revealSecret != (event.Release? && s.togglePressed && over))
  }

  lemma MotionOutcome(s: Shell, theme: Theme, spot: Spot)
    requires Exclusive(s) && !s.pending
    ensures Rest(Moved(s, theme, spot).0) == Rest(PointedAt(s, theme, Motion(spot)))
  {
  }

  lemma PressOutcome(s: Shell, theme: Theme, spot: Spot, now: nat)
    requires Exclusive(s) && !s.pending
    ensures Rest(Pressed(s, theme, spot, now).0) == Rest(PointedAt(s, theme, Press(spot, now)))
  {
  }

  lemma ReleaseLeaves(s: Shell, theme: Theme, spot: Spot, clock: Clock)
    requires Exclusive(s) && !s.pending
    ensures Rest(Released(s, theme, spot, clock).0) == Rest(PointedAt(s, theme, Release(spot, clock)))
  {
  }

  /** So it is without an authentication in flight. */
  lemma PointerOutcome(s: Shell, theme: Theme, event: Event)
    requires Exclusive(s) && (event.Motion? || event.Press? || event.Release?) && !s.pending
    ensures Rest(Step(s, theme, event).0) == Rest(PointedAt(s, theme, event))
  {
    match event {
      case Motion(spot) => MotionOutcome(s, theme, spot);
      case Press(spot, now) => PressOutcome(s, theme, spot, now);
      case Release(spot, clock) => ReleaseLeaves(s, theme, spot, clock);
    }
  }

  /** While an authentication is in flight, and when the pointer leaves, nothing is hovered or pressed any more. */
  lemma PointerLetsGo(s: Shell, theme: Theme, event: Event)
    requires event.Leave? || (IsPointerEvent(event) && s.pending)
    ensures var next := Step(s, theme, event).0;
            next == s.(toggleHovered := false, togglePressed := false, hovered := None, pressed := None)
  {
  }

  lemma ReleaseConfirmationIsCurrent(s: Shell, theme: Theme, spot: Spot, clock: Clock)
    requires !s.pending && clock.entry <= clock.acting
    ensures var confirmation := Released(s, theme, spot, clock).0.power.confirmation;
            confirmation.Some? ==> clock.entry <= confirmation.value.expiresAt
  {
  }

  /** No confirmation on record is over at the time of a tick, or of a press or release that is looked at; other events
      leave it alone. */
  lemma ConfirmationIsCurrent(s: Shell, theme: Theme, event: Event)
    ensures var confirmation := Step(s, theme, event).0.power.confirmation;
            confirmation.Some? ==>
              match event
              case Tick(now) => now <= confirmation.value.expiresAt
              case Press(_, now) => !s.pending ==> now <= confirmation.value.expiresAt
              case Release(_, clock) =>
                !s.pending && clock.entry <= clock.acting ==> clock.entry <= confirmation.value.expiresAt
              case _ => confirmation == s.power.confirmation
  {
    if event.Release? && !s.pending && event.clock.entry <= event.clock.acting {
      ReleaseConfirmationIsCurrent(s, theme, event.spot, event.clock);
    }
  }

  // ---- Clicks and requests

  /** The enabled button an event clicks: a release over the button that was pressed, with no
      authentication in flight. */
  function Clicked(s: Shell, theme: Theme, event: Event): Option<Button> {
    if event.Release? && !s.pending && s.pressed.Some? && s.pressed == event.spot.button
    then FindButton(theme.buttons, s.pressed.value) else None
  }

  /** The power request an event itself raises, whatever was asked for before. */
  function Raised(s: Shell, theme: Theme, event: Event): Option<Action> {
    Step(s.(power := s.power.(requested := None)), theme, event).0.power.requested
  }

  /** What the clicks so far have armed: every click arms its button, unless it acts. */
  function Armed(s: Shell, theme: Theme, events: seq<Event>): Option<Confirmation> {
    if events == [] then None
    else
      var init, event := events[..|events| - 1], events[|events| - 1];
      var armed := Armed(s, theme, init);
      match Clicked(Run(s, theme, init), theme, event)
      case None => armed
      case Some(button) =>
        if Acts(button, armed, event.clock) then None
        else Some(Confirmation(button.action, event.clock.acting + POWER_CONFIRMATION_TIMEOUT))
  }

  function Latest(events: seq<Event>): nat {
    if events == [] then 0
    else match events[|events| - 1]
      case Press(_, now) => now
      case Tick(now) => now
      case Release(_, clock) => clock.checking
      case _ => Latest(events[..|events| - 1])
  }

  /** The clock never runs backwards. */
  ghost predicate Ordered(events: seq<Event>) {
    events == [] ||
    var init := events[..|events| - 1];
    && Ordered(init)
    && match events[|events| - 1]
       case Press(_, now) => Latest(init) <= now
       case Tick(now) => Latest(init) <= now
       case Release(_, clock) => Latest(init) <= clock.entry <= clock.acting <= clock.checking
       case _ => true
  }

  /** The confirmation on record is what the clicks armed, or it is over and gone. */
  ghost predicate Records(s: Shell, armed: Option<Confirmation>, latest: nat) {
    s.power.confirmation == armed || (s.power.confirmation.None? && armed.Some? && armed.value.expiresAt < latest)
  }

  lemma {:induction false} ConfirmationIsArmed(s: Shell, theme: Theme, events: seq<Event>)
    requires s.power.confirmation.None? && Ordered(events)
    ensures Records(Run(s, theme, events), Armed(s, theme, events), Latest(events))
  {
    if events != [] {
      var init, event := events[..|events| - 1], events[|events| - 1];
      ConfirmationIsArmed(s, theme, init);
      StepRecords(Run(s, theme, init), theme, event, Armed(s, theme, init), Latest(init), Latest(events));
    }
  }

  /** What a release does to the confirmation and the request. */
  lemma ReleaseOutcome(s: Shell, theme: Theme, spot: Spot, clock: Clock)
    requires !s.pending
    ensures var next, click := Released(s, theme, spot, clock).0.power, Clicked(s, theme, Release(spot, clock));
            var unexpired := Unexpired(s.power, clock.entry);
            if click.Some? then next == Activated(unexpired, theme, click.value.action, clock) else next == unexpired
  {
  }

  lemma RequestedAfterRelease(s: Shell, theme: Theme, spot: Spot, clock: Clock)
    requires !s.pending
    ensures var event := Release(spot, clock);
            Step(s, theme, event).0.power.requested
            == if Raised(s, theme, event).Some? then Raised(s, theme, event) else s.power.requested
  {
    var asked := s.(power := s.power.(requested := None));
    ReleaseOutcome(s, theme, spot, clock);
    ReleaseOutcome(asked, theme, spot, clock);
    assert Clicked(asked, theme, Release(spot, clock)) == Clicked(s, theme, Release(spot, clock));
  }

  lemma OnlyReleasesRaise(s: Shell, theme: Theme, event: Event)
    requires !event.Release?
    ensures Raised(s, theme, event) == None
    ensures Step(s, theme, event).0.power.requested == if event.Take? then None else s.power.requested
  {
  }

  /** The request on record is the last one raised since the last was taken. */
  lemma RequestedIff(s: Shell, theme: Theme, event: Event)
    ensures Step(s, theme, event).0.power.requested
            == if event.Take? then None
               else if Raised(s, theme, event).Some? then Raised(s, theme, event)
               else s.power.requested
  {
    if !event.Release? {
      OnlyReleasesRaise(s, theme, event);
    } else if !s.pending {
      RequestedAfterRelease(s, theme, event.spot, event.clock);
    }
  }

  lemma StepRecords(s: Shell, theme: Theme, event: Event, armed: Option<Confirmation>, before: nat, after: nat)
    requires Records(s, armed, before)
    requires match event
             case Press(_, now) => before <= now == after
             case Tick(now) => before <= now == after
             case Release(_, clock) => before <= clock.entry <= clock.acting <= clock.checking == after
             case _ => before == after
    ensures Records(Step(s, theme, event).0,
                    match Clicked(s, theme, event)
                    case None => armed
                    case Some(button) =>
                      if Acts(button, armed, event.clock) then None
                      else Some(Confirmation(button.action, event.clock.acting + POWER_CONFIRMATION_TIMEOUT)),
                    after)
  {
    if event.Release? && !s.pending {
      ReleaseOutcome(s, theme, event.spot, event.clock);
    }
  }

  /** An event raises a power request exactly when it clicks an enabled button for that action, and the button
      needs no confirmation or the clicks before armed it and the five seconds are not over. */
  lemma RequestIff(s: Shell, theme: Theme, events: seq<Event>, event: Event, action: Action)
    requires s.power.confirmation.None? && Ordered(events + [event])
    ensures var now, armed := Run(s, theme, events), Armed(s, theme, events);
            Raised(now, theme, event) == Some(action) <==>
              Clicked(now, theme, event).Some? && Clicked(now, theme, event).value.action == action
              && Acts(Clicked(now, theme, event).value, armed, event.clock)
  {
    assert (events + [event])[..|events|] == events;
    ConfirmationIsArmed(s, theme, events);
    RaisedIff(Run(s, theme, events), theme, event, Armed(s, theme, events), Latest(events));
  }

  lemma RaisedIff(s: Shell, theme: Theme, event: Event, armed: Option<Confirmation>, before: nat)
    requires Records(s, armed, before)
    requires event.Release? ==> before <= event.clock.entry <= event.clock.acting <= event.clock.checking
    ensures Raised(s, theme, event) ==
            match Clicked(s, theme, event)
            case None => None
            case Some(button) => if Acts(button, armed, event.clock) then Some(button.action) else None
  {
    if event.Release? && !s.pending {
      ReleaseOutcome(s.(power := s.power.(requested := None)), theme, event.spot, event.clock);
    }
  }

  /** The enabled button the `m`-th event of a run clicks. */
  function ClickAt(s: Shell, theme: Theme, events: seq<Event>, m: nat): Option<Button>
    requires m < |events|
  {
    Clicked(Run(s, theme, events[..m]), theme, events[m])
  }

  lemma ClickAtPrefix(s: Shell, theme: Theme, events: seq<Event>, m: nat)
    requires m < |events| - 1
    ensures ClickAt(s, theme, events[..|events| - 1], m) == ClickAt(s, theme, events, m)
  {
    assert events[..|events| - 1][..m] == events[..m];
  }

  /** Whatever is armed goes back to one earlier click on that very action, the last click on any enabled button. */
  lemma {:induction false} ArmedByLastClick(s: Shell, theme: Theme, events: seq<Event>) returns (j: nat)
    requires Armed(s, theme, events).Some?
    ensures j < |events| && events[j].Release? && ClickAt(s, theme, events, j).Some?
    ensures Armed(s, theme, events).value
            == Confirmation(ClickAt(s, theme, events, j).value.action,
                            events[j].clock.acting + POWER_CONFIRMATION_TIMEOUT)
    ensures forall m | j < m < |events| :: ClickAt(s, theme, events, m).None?
  {
    var last := |events| - 1;
    if ClickAt(s, theme, events, last).Some? {
      j := last;
    } else {
      j := ArmedByLastClick(s, theme, events[..last]);
      ClickAtPrefix(s, theme, events, j);
      forall m | j < m < last ensures ClickAt(s, theme, events, m).None? {
        ClickAtPrefix(s, theme, events, m);
      }
    }
  }

  /** So a button that asks for confirmation raises its request only on a second click: the click before it, on any
      enabled button, was on the same action and at most five seconds earlier. */
  lemma ConfirmedRequestNeedsTwoClicks(s: Shell, theme: Theme, events: seq<Event>, event: Event)
    returns (button: Button, j: nat)
    requires s.power.confirmation.None? && Ordered(events + [event])
    requires Raised(Run(s, theme, events), theme, event).Some?
    ensures event.Release? && Clicked(Run(s, theme, events), theme, event) == Some(button)
    ensures Raised(Run(s, theme, events), theme, event) == Some(button.action)
    ensures button.confirm ==>
      && j < |events| && events[j].Release?
      && event.clock.checking <= events[j].clock.acting + POWER_CONFIRMATION_TIMEOUT
      && ClickAt(s, theme, events, j).Some? && ClickAt(s, theme, events, j).value.action == button.action
      && forall m | j < m < |events| :: ClickAt(s, theme, events, m).None?
  {
    RequestIff(s, theme, events, event, Raised(Run(s, theme, events), theme, event).value);
    button, j := Clicked(Run(s, theme, events), theme, event).value, 0;
    if button.confirm {
      j := ArmedByLastClick(s, theme, events);
    }
  }

  lemma {:induction false} OrderedUpTo(events: seq<Event>, n: nat)
    requires Ordered(events) && n <= |events|
    ensures Ordered(events[..n])
    decreases |events|
  {
    if n < |events| {
      OrderedUpTo(events[..|events| - 1], n);
      assert events[..|events| - 1][..n] == events[..n];
    } else {
      assert events[..n] == events;
    }
  }

  /** The `m`-th event raises a request. */
  predicate RaisesAt(s: Shell, theme: Theme, events: seq<Event>, m: nat)
    requires m < |events|
  {
    Raised(Run(s, theme, events[..m]), theme, events[m]).Some?
  }

  /** After its last click, a run has the button of that click armed unless the click acted. */
  lemma {:induction false} ArmedAfterLastClick(s: Shell, theme: Theme, events: seq<Event>, j: nat)
    requires s.power.confirmation.None? && Ordered(events)
    requires j < |events| && ClickAt(s, theme, events, j).Some?
    requires forall m | j < m < |events| :: ClickAt(s, theme, events, m).None?
    ensures Armed(s, theme, events)
            == if RaisesAt(s, theme, events, j) then None
               else Some(Confirmation(ClickAt(s, theme, events, j).value.action, events[j].clock.acting + 5_000))
    decreases |events|
  {
    var n := |events| - 1;
    var init := events[..n];
    if j < n {
      assert ClickAt(s, theme, events, n).None?;
      ClickAtPrefix(s, theme, events, j);
      forall m | j < m < n ensures ClickAt(s, theme, init, m).None? {
        ClickAtPrefix(s, theme, events, m);
      }
      assert init[..j] == events[..j];
      ArmedAfterLastClick(s, theme, init, j);
    } else {
      ConfirmationIsArmed(s, theme, init);
      RaisedIff(Run(s, theme, init), theme, events[n], Armed(s, theme, init), Latest(init));
    }
  }

  /** The `j`-th event is the last click on any enabled button, it was on `action` and raised nothing, and `now` is at
      most five seconds later. */
  ghost predicate ConfirmsClick(s: Shell, theme: Theme, events: seq<Event>, action: Action, now: nat, j: nat) {
    && j < |events| && ClickAt(s, theme, events, j).Some? && ClickAt(s, theme, events, j).value.action == action
    && !RaisesAt(s, theme, events, j) && now <= events[j].clock.acting + 5_000
    && forall m | j < m < |events| :: ClickAt(s, theme, events, m).None?
  }

  /** In terms of the events alone: an event raises a request exactly when it is a release over the pressed button, with
      no authentication in flight, that button is enabled, and it asks for no confirmation or confirms a click before.
      So two clicks in time do raise it. */
  lemma RequestByClicksIff(s: Shell, theme: Theme, events: seq<Event>, event: Event, action: Action)
    requires s.power.confirmation.None? && Ordered(events + [event])
    ensures var now, button := Run(s, theme, events), FindButton(theme.buttons, action);
            Raised(now, theme, event) == Some(action) <==>
              && event.Release? && !now.pending && now.pressed == event.spot.button == Some(action) && button.Some?
              && (!button.value.confirm
                  || exists j: nat :: ConfirmsClick(s, theme, events, action, event.clock.checking, j))
  {
    RequestIff(s, theme, events, event, action);
    assert (events + [event])[..|events|] == events;
    var armed := Armed(s, theme, events);
    if armed.Some? {
      var j := ArmedByLastClick(s, theme, events);
      ArmedAfterLastClick(s, theme, events, j);
      assert armed.value.action == action && event.Release? && event.clock.checking <= armed.value.expiresAt
             ==> ConfirmsClick(s, theme, events, action, event.clock.checking, j);
    }
    if event.Release? {
      forall j: nat | ConfirmsClick(s, theme, events, action, event.clock.checking, j)
        ensures armed == Some(Confirmation(action, events[j].clock.acting + 5_000))
      {
        ArmedAfterLastClick(s, theme, events, j);
      }
    }
  }

  // ---- Back to the press

  /** The event leaves the pressed button pressed.  A press or release elsewhere lets go of it, unless it only serves
      to reveal the password field. */
  predicate KeepsPressed(s: Shell, theme: Theme, event: Event, action: Action) {
    match event
    case Motion(spot) => !s.pending && spot.button == Some(action)
    case Leave => false
    case Press(spot, _) => !s.pending && spot.button.None? && Reveals(s, theme)
    case Release(spot, _) => !s.pending && spot.button != Some(action) && Reveals(s, theme)
    case _ => true
  }

  /** The event presses the button. */
  predicate Presses(s: Shell, event: Event, action: Action) {
    event.Press? && !s.pending && event.spot.button == Some(action)
  }

  lemma PressedIffMoved(s: Shell, theme: Theme, spot: Spot, action: Action)
    requires Exclusive(s)
    ensures Moved(s, theme, spot).0.pressed == Some(action)
       <==> s.pressed == Some(action) && KeepsPressed(s, theme, Motion(spot), action)
  {
  }

  lemma PressedIffPressed(s: Shell, theme: Theme, spot: Spot, now: nat, action: Action)
    ensures Pressed(s, theme, spot, now).0.pressed == Some(action)
       <==> Presses(s, Press(spot, now), action)
            || (s.pressed == Some(action) && KeepsPressed(s, theme, Press(spot, now), action))
  {
    assert Reveals(ClearExpired(s, now), theme) == Reveals(s, theme);
    assert KeepsPressed(s, theme, Press(spot, now), action) <==> !s.pending && spot.button.None? && Reveals(s, theme);
  }

  lemma PressedIffReleased(s: Shell, theme: Theme, spot: Spot, clock: Clock, action: Action)
    ensures Released(s, theme, spot, clock).0.pressed == Some(action)
       <==> s.pressed == Some(action) && KeepsPressed(s, theme, Release(spot, clock), action)
  {
  }

  lemma PressedIff(s: Shell, theme: Theme, event: Event, action: Action)
    requires Exclusive(s)
    ensures Step(s, theme, event).0.pressed == Some(action)
       <==> Presses(s, event, action) || (s.pressed == Some(action) && KeepsPressed(s, theme, event, action))
  {
    match event {
      case Motion(spot) => PressedIffMoved(s, theme, spot, action);
      case Press(spot, now) => PressedIffPressed(s, theme, spot, now, action);
      case Release(spot, clock) => PressedIffReleased(s, theme, spot, clock, action);
      case _ =>
    }
  }

  lemma {:induction false} RunIsExclusive(s: Shell, theme: Theme, events: seq<Event>)
    requires Exclusive(s)
    ensures Exclusive(Run(s, theme, events))
  {
    if events != [] {
      RunIsExclusive(s, theme, events[..|events| - 1]);
      RedrawIff(Run(s, theme, events[..|events| - 1]), theme, events[|events| - 1]);
    }
  }

  /** Event `j` presses the button and every later one keeps it pressed. */
  ghost predicate PressedSince(s: Shell, theme: Theme, events: seq<Event>, action: Action, j: nat) {
    events != [] &&
    var init, event := events[..|events| - 1], events[|events| - 1];
    if j == |init| then Presses(Run(s, theme, init), event, action)
    else PressedSince(s, theme, init, action, j) && KeepsPressed(Run(s, theme, init), theme, event, action)
  }

  /** Over any run: after a press followed only by events that keep the button pressed, it is pressed. */
  lemma {:induction false} PressedSinceIsPressed(s: Shell, theme: Theme, events: seq<Event>, action: Action, j: nat)
    requires Exclusive(s) && PressedSince(s, theme, events, action, j)
    ensures j < |events| && Run(s, theme, events).pressed == Some(action)
  {
    var init, event := events[..|events| - 1], events[|events| - 1];
    RunIsExclusive(s, theme, init);
    PressedIff(Run(s, theme, init), theme, event, action);
    if j != |init| {
      PressedSinceIsPressed(s, theme, init, action, j);
    }
  }

  /** And it is pressed only then: the pointer was not seen to leave it since the press. */
  lemma {:induction false} PressedByPress(s: Shell, theme: Theme, events: seq<Event>, action: Action) returns (j: nat)
    requires Exclusive(s) && s.pressed.None? && Run(s, theme, events).pressed == Some(action)
    ensures PressedSince(s, theme, events, action, j)
  {
    var init, event := events[..|events| - 1], events[|events| - 1];
    RunIsExclusive(s, theme, init);
    PressedIff(Run(s, theme, init), theme, event, action);
    j := |init|;
    if !Presses(Run(s, theme, init), event, action) {
      j := PressedByPress(s, theme, init, action);
      PressedSinceIsPressed(s, theme, init, action, j);
    }
  }

  lemma RaisedByClick(s: Shell, theme: Theme, event: Event, action: Action)
    requires Raised(s, theme, event) == Some(action)
    ensures event.Release? && !s.pending && s.pressed == event.spot.button == Some(action)
  {
  }

  /** So whatever raises a request is a release over the button, with no authentication in flight, after a press on it
      from which the pointer was not seen to leave. */
  lemma RequestNeedsPress(s: Shell, theme: Theme, events: seq<Event>, event: Event, action: Action) returns (j: nat)
    requires Exclusive(s) && s.pressed.None?
    requires Raised(Run(s, theme, events), theme, event) == Some(action)
    ensures event.Release? && event.spot.button == Some(action) && !Run(s, theme, events).pending
    ensures j < |events| && PressedSince(s, theme, events, action, j)
  {
    RaisedByClick(Run(s, theme, events), theme, event, action);
    j := PressedByPress(s, theme, events, action);
    PressedSinceIsPressed(s, theme, events, action, j);
  }

  // ---- The reveal toggle

  /** The event presses the toggle: it is over it, over no button, and the field shows. */
  predicate PressesToggle(s: Shell, theme: Theme, event: Event) {
    event.Press? && !s.pending && event.spot.toggle && event.spot.button.None?
    && (s.authRevealed || !theme.revealOnInteraction)
  }

  /** The event leaves the pressed toggle pressed. */
  predicate KeepsToggle(s: Shell, theme: Theme, event: Event) {
    match event
    case Motion(spot) =>
      !s.pending && spot.toggle && spot.button.None? && (s.authRevealed || !theme.revealOnInteraction)
    case Leave => false
    case Press(_, _) => OnlyReveals(s, theme, event)
    case Release(_, _) => OnlyReveals(s, theme, event)
    case Other(_, _, _, _, letGo) => !letGo
    case _ => true
  }

  lemma TogglePressedIff(s: Shell, theme: Theme, event: Event)
    requires Exclusive(s)
    ensures Step(s, theme, event).0.togglePressed
       <==> PressesToggle(s, theme, event) || (s.togglePressed && KeepsToggle(s, theme, event))
  {
    if event.Motion? || event.Press? || event.Release? {
      if s.pending {
        PointerLetsGo(s, theme, event);
      } else {
        PointerOutcome(s, theme, event);
      }
    }
  }

  /** Event `j` presses the toggle and every later one keeps it pressed. */
  ghost predicate TogglePressedSince(s: Shell, theme: Theme, events: seq<Event>, j: nat) {
    events != [] &&
    var init, event := events[..|events| - 1], events[|events| - 1];
    if j == |init| then PressesToggle(Run(s, theme, init), theme, event)
    else TogglePressedSince(s, theme, init, j) && KeepsToggle(Run(s, theme, init), theme, event)
  }

  lemma {:induction false} TogglePressedByPress(s: Shell, theme: Theme, events: seq<Event>) returns (j: nat)
    requires Exclusive(s) && !s.togglePressed && Run(s, theme, events).togglePressed
    ensures j < |events| && TogglePressedSince(s, theme, events, j)
  {
    var init, event := events[..|events| - 1], events[|events| - 1];
    RunIsExclusive(s, theme, init);
    TogglePressedIff(Run(s, theme, init), theme, event);
    j := |init|;
    if !PressesToggle(Run(s, theme, init), theme, event) {
      j := TogglePressedByPress(s, theme, init);
    }
  }

  /** So a pointer event switches what the secret shows exactly when it is a release over the toggle while it is pressed
      and the field shows; and then it was pressed by a press from which the pointer was not seen to leave. */
  lemma SecretSwitchedIff(s: Shell, theme: Theme, events: seq<Event>, event: Event) returns (j: nat)
    requires Exclusive(s) && !s.togglePressed && IsPointerEvent(event)
    ensures var now := Run(s, theme, events);
            Step(now, theme, event).0.revealSecret != now.revealSecret
            <==> && event.Release? && !now.pending && now.togglePressed && event.spot.toggle && event.spot.button.None?
                 && (now.authRevealed || !theme.revealOnInteraction)
    ensures var now := Run(s, theme, events);
            Step(now, theme, event).0.revealSecret != now.revealSecret ==>
              j < |events| && TogglePressedSince(s, theme, events, j)
  {
    var now := Run(s, theme, events);
    RunIsExclusive(s, theme, events);
    if event.Leave? || now.pending {
      PointerLetsGo(now, theme, event);
    } else {
      PointerOutcome(now, theme, event);
    }
    j := 0;
    if now.togglePressed {
      j := TogglePressedByPress(s, theme, events);
    }
  }

  // ---- The program

  /** `ShellState`, with the theme fixed. */
  class ShellState {
    const theme: Theme
    var pending: bool
    var authRevealed: bool
    var secretSelected: bool
    var revealSecret: bool
    var toggleHovered: bool
    var togglePressed: bool
    var hovered: Option<Action>
    var pressed: Option<Action>
    var power: Power

    ghost function State(): Shell
      reads this
    {
      Shell(pending, authRevealed, secretSelected, revealSecret, toggleHovered, togglePressed, hovered, pressed, power)
    }

    constructor (t: Theme)
      ensures theme == t
      ensures State() == Shell(false, !t.revealOnInteraction, false, false, false, false, None, None, Power(None, None))
      ensures Exclusive(State())
    {
      theme, pending, authRevealed, secretSelected, revealSecret := t, false, !t.revealOnInteraction, false, false;
      toggleHovered, togglePressed, hovered, pressed, power := false, false, None, None, Power(None, None);
    }

    method LetGo() returns (changed: bool)
      modifies this
      ensures (State(), changed) == (Idle(old(State())), WasActive(old(State())))
    {
      changed := toggleHovered || togglePressed || hovered.Some? || pressed.Some?;
      toggleHovered, togglePressed, hovered, pressed := false, false, None, None;
    }

    method HandlePointerMotion(spot: Spot) returns (changed: bool)
      modifies this
      ensures (State(), changed) == Step(old(State()), theme, Motion(spot))
    {
      if pending {
        changed := LetGo();
        return;
      }
      var over := (authRevealed || !theme.revealOnInteraction) && spot.button.None? && spot.toggle;
      changed := toggleHovered != over || hovered != spot.button;
      toggleHovered, hovered := over, spot.button;
      if !over && togglePressed {
        togglePressed := false;
        return true;
      }
      if pressed.Some? && pressed != spot.button {
        pressed := None;
        return true;
      }
    }

    method HandlePointerLeave() returns (changed: bool)
      modifies this
      ensures (State(), changed) == Step(old(State()), theme, Leave)
    {
      changed := LetGo();
    }

    method HandlePointerPress(spot: Spot, now: nat) returns (changed: bool)
      modifies this
      ensures (State(), changed) == Step(old(State()), theme, Press(spot, now))
    {
      if pending {
        changed := LetGo();
        return;
      }
      var _ := ClearExpiredPowerConfirmation(now);
      if spot.button.Some? {
        changed := pressed != spot.button || hovered != spot.button;
        hovered, pressed, toggleHovered, togglePressed := spot.button, spot.button, false, false;
        return;
      }
      var revealed := RevealAuth();
      if revealed {
        return true;
      }
      changed := secretSelected || togglePressed != spot.toggle || toggleHovered != spot.toggle
                 || hovered.Some? || pressed.Some?;
      secretSelected := false;
      toggleHovered, togglePressed, hovered, pressed := spot.toggle, spot.toggle, None, None;
    }

    method HandlePointerRelease(spot: Spot, clock: Clock) returns (changed: bool)
      modifies this
      ensures (State(), changed) == Step(old(State()), theme, Release(spot, clock))
    {
      if pending {
        changed := LetGo();
        return;
      }
      var _ := ClearExpiredPowerConfirmation(clock.entry);
      if pressed.Some? && pressed == spot.button {
        ActivatePowerButton(pressed.value, clock);
        pressed, hovered, toggleHovered, togglePressed := None, spot.button, false, false;
        return true;
      }
      changed := ReleaseElsewhere(spot);
    }

    method ReleaseElsewhere(spot: Spot) returns (changed: bool)
      modifies this
      ensures (State(), changed) == ReleasedElsewhere(old(State()), theme, spot)
    {
      var revealed := RevealAuth();
      if revealed {
        return true;
      }
      var over := (authRevealed || !theme.revealOnInteraction) && spot.button.None? && spot.toggle;
      var toggled := togglePressed && over;
      changed := togglePressed || toggleHovered != over || hovered != spot.button || pressed.Some? || toggled;
      togglePressed, toggleHovered, hovered, pressed := false, over, spot.button, None;
      if toggled {
        revealSecret := !revealSecret;
      }
    }

    method RevealAuth() returns (revealed: bool)
      modifies this`authRevealed
      ensures revealed == Reveals(old(State()), theme)
      ensures State() == if revealed then old(State()).(authRevealed := true) else old(State())
    {
      revealed := !authRevealed && theme.revealOnInteraction;
      if revealed {
        authRevealed := true;
      }
    }

    method ClearExpiredPowerConfirmation(now: nat) returns (cleared: bool)
      modifies this`power
      ensures power == Unexpired(old(power), now) && (cleared <==> power != old(power))
    {
      cleared := power.confirmation.Some? && now > power.confirmation.value.expiresAt;
      if cleared {
        power := power.(confirmation := None);
      }
    }

    method ActivatePowerButton(action: Action, clock: Clock)
      modifies this`power
      ensures power == Activated(old(power), theme, action, clock)
    {
      var button := FindButton(theme.buttons, action);
      if button.None? {
        return;
      }
      if !button.value.confirm
         || (power.confirmation.Some? && clock.checking <= power.confirmation.value.expiresAt
             && power.confirmation.value.action == action) {
        power := Power(None, Some(action));
        return;
      }
      power := power.(confirmation := Some(Confirmation(action, clock.acting + POWER_CONFIRMATION_TIMEOUT)));
    }

    method TakePointerAction() returns (action: Option<Action>)
      modifies this`power
      ensures action == old(power).requested && State() == Step(old(State()), theme, Take).0
    {
      action, power := power.requested, power.(requested := None);
    }
  }
}
