/** The validation loop of `create_user`: ask for a username, then a
    password and its confirmation, until a pair is acceptable. Answers are
    read from a sequence of entries; running out of entries stands for the
    Ctrl+C or end of input that cancels account creation. */
module Account {
  import opened Text

  const MinUsernameLength: nat := 4
  const MinPasswordLength: nat := 8

  /** The outcome of one round, in the order the checks are made. */
  datatype Verdict = UsernameTooShort | PasswordTooShort | PasswordsDiffer | Valid

  function CheckRound(username: String, password: String, confirm: String): (r: Verdict)
    ensures r == UsernameTooShort <==> |username| < MinUsernameLength
    ensures r == Valid <==>
      |username| >= MinUsernameLength && |password| >= MinPasswordLength && password == confirm
    ensures r == PasswordsDiffer ==> |password| >= MinPasswordLength
  {
    if |username| < MinUsernameLength then UsernameTooShort
    else if |password| < MinPasswordLength then PasswordTooShort
    else if password != confirm then PasswordsDiffer
    else Valid
  }

  datatype Signup = Accepted(username: String, password: String) | Cancelled

  /** The rounds of the loop over `inputs`. A short username costs one entry
      (the password is not asked for); any other round costs three. */
  function SignupFrom(inputs: seq<String>): Signup
    decreases |inputs|
  {
    if |inputs| == 0 then Cancelled
    else if |inputs[0]| < MinUsernameLength then SignupFrom(inputs[1..])
    else if |inputs| < 3 then Cancelled
    else if CheckRound(inputs[0], inputs[1], inputs[2]) == Valid then Accepted(inputs[0], inputs[1])
    else SignupFrom(inputs[3..])
  }

  /** The `while True` loop of `create_user`. */
  method CreateUser(inputs: seq<String>) returns (r: Signup)
    ensures r == SignupFrom(inputs)
  {
    var pos := 0;
    while pos < |inputs|
      invariant 0 <= pos <= |inputs|
      invariant SignupFrom(inputs) == SignupFrom(inputs[pos..])
      decreases |inputs| - pos
    {
      var username := inputs[pos];
      assert inputs[pos..][0] == username;
      if |username| < MinUsernameLength {
        assert inputs[pos..][1..] == inputs[pos + 1..];
        pos := pos + 1;
        continue;
      }
      if pos + 3 > |inputs| {
        return Cancelled;
      }
      var password := inputs[pos + 1];
      var confirm := inputs[pos + 2];
      assert inputs[pos..][1] == password && inputs[pos..][2] == confirm;
      if |password| < MinPasswordLength {
        assert inputs[pos..][3..] == inputs[pos + 3..];
        pos := pos + 3;
      } else if password != confirm {
        assert inputs[pos..][3..] == inputs[pos + 3..];
        pos := pos + 3;
      } else {
        return Accepted(username, password);
      }
    }
    assert inputs[pos..] == [];
    return Cancelled;
  }

  /** An accepted pair has a long enough username and password, and the
      password was typed twice in a row right after that username. */
  lemma {:induction false} AcceptedIsValid(inputs: seq<String>)
    ensures SignupFrom(inputs).Accepted? ==>
      var a := SignupFrom(inputs);
      |a.username| >= MinUsernameLength && |a.password| >= MinPasswordLength &&
      exists k :: 0 <= k && k + 2 < |inputs| &&
        inputs[k] == a.username && inputs[k + 1] == a.password && inputs[k + 2] == a.password
    decreases |inputs|
  {
    var a := SignupFrom(inputs);
    if a.Accepted? && |inputs| > 0 {
      if |inputs[0]| < MinUsernameLength {
        AcceptedIsValid(inputs[1..]);
        var k :| 0 <= k && k + 2 < |inputs[1..]| &&
          inputs[1..][k] == a.username && inputs[1..][k + 1] == a.password && inputs[1..][k + 2] == a.password;
        assert inputs[k + 1] == a.username && inputs[k + 2] == a.password && inputs[k + 3] == a.password;
      } else if CheckRound(inputs[0], inputs[1], inputs[2]) == Valid {
        assert inputs[0] == a.username && inputs[1] == a.password && inputs[2] == a.password;
      } else {
        AcceptedIsValid(inputs[3..]);
        var k :| 0 <= k && k + 2 < |inputs[3..]| &&
          inputs[3..][k] == a.username && inputs[3..][k + 1] == a.password && inputs[3..][k + 2] == a.password;
        assert inputs[k + 3] == a.username && inputs[k + 4] == a.password && inputs[k + 5] == a.password;
      }
    }
  }

  /** Entries too short to be a username are skipped one at a time, without
      a password being asked for. */
  lemma {:induction false} ShortUsernamesSkipped(shorts: seq<String>, rest: seq<String>)
    requires forall j :: 0 <= j < |shorts| ==> |shorts[j]| < MinUsernameLength
    ensures SignupFrom(shorts + rest) == SignupFrom(rest)
    decreases |shorts|
  {
    if shorts != [] {
      assert (shorts + rest)[0] == shorts[0] && |shorts[0]| < MinUsernameLength;
      assert (shorts + rest)[1..] == shorts[1..] + rest;
      ShortUsernamesSkipped(shorts[1..], rest);
    } else {
      assert shorts + rest == rest;
    }
  }

  /** A round that passes ends the loop with that username and password. */
  lemma ValidRoundAccepted(username: String, password: String, rest: seq<String>)
    requires CheckRound(username, password, password) == Valid
    ensures SignupFrom([username, password, password] + rest) == Accepted(username, password)
  {
    var s := [username, password, password] + rest;
    assert s[0] == username && s[1] == password && s[2] == password;
  }

  /** A round whose password is too short or not confirmed is thrown away
      whole, and the loop starts again with a fresh username. */
  lemma RejectedRoundSkipped(username: String, password: String, confirm: String, rest: seq<String>)
    requires |username| >= MinUsernameLength
    requires CheckRound(username, password, confirm) != Valid
    ensures SignupFrom([username, password, confirm] + rest) == SignupFrom(rest)
  {
    var s := [username, password, confirm] + rest;
    assert s[0] == username && s[1] == password && s[2] == confirm;
    assert s[3..] == rest;
  }
}
