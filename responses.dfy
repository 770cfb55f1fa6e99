/**
 * What the controllers answer: the HTTP result kinds they return, the
 * fixed messages, and the decimal rendering of an Id inside a message.
 */
module Responses {
  import opened Wrappers

  /** The action results the controllers produce, with their payloads. */
  datatype ActionResult<V> =
    | Ok(value: V)                                          // 200
    | CreatedAtAction(actionName: string, routeId: int, value: V)  // 201, Location names the action and Id
    | NoContent                                             // 204
    | BadRequest(error: string)                             // 400
    | Unauthorized(error: string)                           // 401
    | NotFound                                              // 404
    | InternalServerError(error: string)                    // 500

  const USERNAME_TAKEN := "Username already exists."
  const USER_REGISTERED := "User registered successfully!"
  const INVALID_CREDENTIALS := "Invalid username or password."
  const LOGIN_SUCCEEDED := "Login successful!"
  const INTERNAL_ERROR := "An internal server error occurred."

  /** The decimal digit for `d`. */
  function DigitChar(d: nat): (c: char)
    requires d < 10
    ensures '0' <= c <= '9' && c as int - '0' as int == d
  {
    ('0' as int + d) as char
  }

  /** Every character of `s` is a decimal digit. */
  predicate AllDigits(s: string)
  {
    forall i :: 0 <= i < |s| ==> '0' <= s[i] <= '9'
  }

  /** The value of a string of decimal digits. */
  function DigitsValue(s: string): (n: nat)
    requires AllDigits(s)
  {
    if s == [] then 0 else DigitsValue(s[..|s| - 1]) * 10 + (s[|s| - 1] as int - '0' as int)
  }

  /** The decimal rendering of `n`: digits only, with no leading zero. */
  function NatToString(n: nat): (s: string)
    ensures |s| >= 1
    ensures AllDigits(s)
    ensures s[0] == '0' ==> s == "0"
  {
    if n < 10 then [DigitChar(n)] else NatToString(n / 10) + [DigitChar(n % 10)]
  }

  /** Reading the rendering back gives the number. */
  lemma {:induction false} NatToStringValue(n: nat)
    ensures DigitsValue(NatToString(n)) == n
  {
    if n >= 10 {
      var s := NatToString(n / 10);
      NatToStringValue(n / 10);
      assert (s + [DigitChar(n % 10)])[..|s|] == s;
    }
  }

  /** How C# interpolates an `int`: an optional minus sign, then the digits. */
  function IntToString(n: int): (s: string)
  {
    if n < 0 then "-" + NatToString(-n) else NatToString(n)
  }

  /** Reads back an integer written as an optional minus sign followed by at least one digit. */
  function ParseInt(s: string): (n: Option<int>)
  {
    if |s| >= 2 && s[0] == '-' && AllDigits(s[1..]) then Some(0 - DigitsValue(s[1..]) as int)
    else if |s| >= 1 && AllDigits(s) then Some(DigitsValue(s))
    else None
  }

  /** Reading the rendering of a natural number back gives the number. */
  lemma ParseNatToString(n: nat)
    ensures ParseInt(NatToString(n)) == Some(n)
  {
    var s := NatToString(n);
    assert s[0] != '-';
    NatToStringValue(n);
  }

  /** Reading the rendering of a negative number back gives the number. */
  lemma ParseNegativeToString(n: int)
    requires n < 0
    ensures ParseInt("-" + NatToString(-n)) == Some(n)
  {
    var digits := NatToString(-n);
    var s := "-" + digits;
    assert s[0] == '-' && s[1..] == digits;
    NatToStringValue(-n);
    assert DigitsValue(s[1..]) == -n;
  }

  /** Reading an interpolated `int` back gives the number. */
  lemma ParseIntToString(n: int)
    ensures ParseInt(IntToString(n)) == Some(n)
  {
    if n < 0 {
      ParseNegativeToString(n);
    } else {
      ParseNatToString(n);
    }
  }

  /** Different Ids are rendered differently. */
  lemma IntToStringInjective(a: int, b: int)
    requires IntToString(a) == IntToString(b)
    ensures a == b
  {
    ParseIntToString(a);
    ParseIntToString(b);
  }

  const COLUMN_PREFIX := "Column with Id "
  const USER_PREFIX := "User with Id "
  const MISSING_SUFFIX := " does not exist."

  /** The Id a message of the form `prefix` Id `suffix` names, or None for a message of another form. */
  function MessageId(prefix: string, suffix: string, message: string): (id: Option<int>)
  {
    if |prefix| + |suffix| <= |message| && message[..|prefix|] == prefix && message[|message| - |suffix|..] == suffix
    then ParseInt(message[|prefix|..|message| - |suffix|])
    else None
  }

  /** The BadRequest message for a task naming a column that does not exist. */
  function ColumnMissing(columnId: int): (message: string)
  {
    COLUMN_PREFIX + IntToString(columnId) + MISSING_SUFFIX
  }

  /** The BadRequest message for a task naming a user that does not exist. */
  function UserMissing(userId: int): (message: string)
  {
    USER_PREFIX + IntToString(userId) + MISSING_SUFFIX
  }

  /** A missing-column message reads back as naming exactly that column Id, and never as a missing-user message. */
  lemma ColumnMissingNamesId(columnId: int)
    ensures MessageId(COLUMN_PREFIX, MISSING_SUFFIX, ColumnMissing(columnId)) == Some(columnId)
    ensures MessageId(USER_PREFIX, MISSING_SUFFIX, ColumnMissing(columnId)) == None
  {
    var message := ColumnMissing(columnId);
    assert message[..|COLUMN_PREFIX|] == COLUMN_PREFIX;
    assert message[|message| - |MISSING_SUFFIX|..] == MISSING_SUFFIX;
    assert message[|COLUMN_PREFIX|..|message| - |MISSING_SUFFIX|] == IntToString(columnId);
    assert message[..|USER_PREFIX|][0] != USER_PREFIX[0];
    ParseIntToString(columnId);
  }

  /** A missing-user message reads back as naming exactly that user Id, and never as a missing-column message. */
  lemma UserMissingNamesId(userId: int)
    ensures MessageId(USER_PREFIX, MISSING_SUFFIX, UserMissing(userId)) == Some(userId)
    ensures MessageId(COLUMN_PREFIX, MISSING_SUFFIX, UserMissing(userId)) == None
  {
    var message := UserMissing(userId);
    assert message[..|USER_PREFIX|] == USER_PREFIX;
    assert message[|message| - |MISSING_SUFFIX|..] == MISSING_SUFFIX;
    assert message[|USER_PREFIX|..|message| - |MISSING_SUFFIX|] == IntToString(userId);
    assert |COLUMN_PREFIX| <= |message| ==> message[..|COLUMN_PREFIX|][0] != COLUMN_PREFIX[0];
    ParseIntToString(userId);
  }

  /**
   * The two BadRequest messages tell the cause apart, and each names the
   * offending Id: no two inputs share a message.
   */
  lemma MissingMessagesDistinct(a: int, b: int)
    ensures ColumnMissing(a) != UserMissing(b)
    ensures ColumnMissing(a) == ColumnMissing(b) ==> a == b
    ensures UserMissing(a) == UserMissing(b) ==> a == b
  {
    ColumnMissingNamesId(a);
    ColumnMissingNamesId(b);
    UserMissingNamesId(a);
    UserMissingNamesId(b);
  }
}
