/** The sequencer instantiated with the banner's own three roles. */
module HeroRoles {

  import opened Typewriter

  /** The roles the hero banner cycles through. */
  const Roles: seq<string> := ["Frontend Development", "UI/UX Designer", "Problem Solver"]

  /** The banner starts: the role list is non-empty, so mounting cannot fail. */
  lemma RolesStart()
    ensures Start(Roles) == Ok(Initial)
    ensures RoleStart(Roles, Initial)
  {
  }

  /** Twenty reveals after mounting, the first role is shown in full and the
      next timer firing is the completion. */
  lemma FirstRoleShown()
    ensures Iterate(Roles, Initial, 20).displayText == "Frontend Development"
    ensures Next(Roles, Iterate(Roles, Initial, 20)) == Complete
  {
    RoleFullyTyped(Roles, Initial);
  }

  /** One full cycle from the start of role `i` of the banner's roles. */
  lemma CycleOf(s: State, i: nat)
    requires RoleStart(Roles, s) && s.roleIndex == i
    ensures Iterate(Roles, s, |Roles[i]| + 2) == State((i + 1) % |Roles|, 0, Roles[i], true)
    ensures Elapsed(Roles, s, |Roles[i]| + 2) == 50 * |Roles[i]| + 2000
  {
    OneCycle(Roles, s);
  }

  /** One cycle per role, 54 timer firings in all, brings the banner back to
      typing the first role, still showing the last one, 8.4 seconds in. */
  lemma BackToFirstRole()
    ensures Iterate(Roles, Initial, 54) == State(0, 0, "Problem Solver", true)
    ensures Elapsed(Roles, Initial, 54) == 8400
  {
    var s1 := State(1, 0, Roles[0], true);
    var s2 := State(2, 0, Roles[1], true);
    var n0, n1, n2 := |Roles[0]| + 2, |Roles[1]| + 2, |Roles[2]| + 2;
    CycleOf(Initial, 0);
    assert (0 + 1) % |Roles| == 1;
    assert Iterate(Roles, Initial, n0) == s1;
    CycleOf(s1, 1);
    assert (1 + 1) % |Roles| == 2;
    assert Iterate(Roles, s1, n1) == s2;
    CycleOf(s2, 2);
    assert (2 + 1) % |Roles| == 0;
    IterateAdd(Roles, Initial, n0, n1);
    IterateAdd(Roles, Initial, n0 + n1, n2);
    ElapsedAdd(Roles, Initial, n0, n1);
    ElapsedAdd(Roles, Initial, n0 + n1, n2);
    assert n0 + n1 + n2 == 54;
  }

  /** A two-role list, step by step: the completed role stays on display
      through the pause and the advance, and is replaced only by the first
      reveal of the next role. */
  lemma TwoRoleTexts()
    ensures var roles := ["AB", "C"];
            && Iterate(roles, Initial, 1).displayText == "A"
            && Iterate(roles, Initial, 2).displayText == "AB"
            && Iterate(roles, Initial, 3) == State(0, 2, "AB", false)
            && Iterate(roles, Initial, 4) == State(1, 0, "AB", true)
            && Iterate(roles, Initial, 5).displayText == "C"
            && Iterate(roles, Initial, 7) == State(0, 0, "C", true)
            && Iterate(roles, Initial, 8).displayText == "A"
  {
  }
}
