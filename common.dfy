/** Values shared by every part of the auction-site model: the optional value that stands
    for a C# null, the exception classes the site raises, the result of an operation that
    may raise one of them, the domain constraints and the decimal rendering of an id. */
module Common {

  /** A C# reference that may be null (`None`). */
  datatype Option<T> = None | Some(value: T)

  /** The exception classes the auction site raises. `NullReference` stands for the .NET
      NullReferenceException that escapes when the code dereferences a row it did not find. */
  datatype Error =
    | InvalidOperation  // AuctionSiteInvalidOperationException
    | Argument          // AuctionSiteArgumentException
    | ArgumentNull      // AuctionSiteArgumentNullException
    | OutOfRange        // AuctionSiteArgumentOutOfRangeException
    | NameAlreadyInUse  // AuctionSiteNameAlreadyInUseException
    | TimeMachine       // AuctionSiteUnavailableTimeMachineException
    | UnavailableDb     // AuctionSiteUnavailableDbException
    | InexistentName    // AuctionSiteInexistentNameException
    | NullReference     // System.NullReferenceException

  /** The outcome of an operation: its value, or the exception it raises. */
  datatype Result<T> = Ok(value: T) | Err(error: Error)

  /** A reading of a site's alarm clock, in seconds. `AddSeconds(n)` is `+ n`. */
  type Time = int

  /** The bounds of the interface's DomainConstraints class. Their values are not part of
      this model; only the ordering of each pair is assumed. */
  datatype Limits = Limits(
    minUserName: nat, maxUserName: nat, minUserPassword: nat,
    minSiteName: nat, maxSiteName: nat,
    minTimeZone: int, maxTimeZone: int)
  {
    predicate Valid() {
      minUserName <= maxUserName && minSiteName <= maxSiteName && minTimeZone <= maxTimeZone
    }
  }

  function DigitChar(d: nat): (c: char)
    requires d < 10
    ensures '0' <= c <= '9'
  {
    (d + '0' as int) as char
  }

  /** Decimal digits of a natural number, most significant first. */
  function NatString(n: nat): (s: string)
    ensures 1 <= |s|
    ensures n < 10 <==> |s| == 1
    ensures forall i :: 0 <= i < |s| ==> '0' <= s[i] <= '9'
  {
    if n < 10 then [DigitChar(n)] else NatString(n / 10) + [DigitChar(n % 10)]
  }

  /** `int.ToString()`: the text a user id becomes when it is used as a session id. */
  function IdString(n: int): (s: string)
    ensures 1 <= |s|
    ensures s[0] == '-' <==> n < 0
  {
    if n < 0 then "-" + NatString(-n) else NatString(n)
  }

  /** `string.Length`: the number of UTF-16 code units, two for each character outside
      the Basic Multilingual Plane. */
  function Utf16Length(s: string): (n: nat)
    ensures |s| <= n <= 2 * |s|
  {
    if s == [] then 0
    else Utf16Length(s[..|s| - 1]) + (if s[|s| - 1] as int > 0xFFFF then 2 else 1)
  }

  /** A text made only of Basic Multilingual Plane characters has one code unit each. */
  lemma {:induction false} BmpUtf16Length(s: string)
    requires forall i :: 0 <= i < |s| ==> s[i] as int <= 0xFFFF
    ensures Utf16Length(s) == |s|
  {
    if s != [] {
      BmpUtf16Length(s[..|s| - 1]);
    }
  }

  /** A character outside the Basic Multilingual Plane is one character but two code
      units. */
  lemma AstralCharIsTwoUnits(c: char)
    requires c as int > 0xFFFF
    ensures |[c]| == 1 && Utf16Length([c]) == 2
  {
  }

  /** A non-empty set has an element: the loops below pick their next key with it. */
  lemma HasElement(s: set<int>)
    requires s != {}
    ensures exists x :: x in s
  {
    if forall x :: x !in s {
      assert false;
    }
  }

  lemma {:induction false} NatStringInjective(a: nat, b: nat)
    requires NatString(a) == NatString(b)
    ensures a == b
  {
    var s := NatString(a);
    if a >= 10 {
      assert b >= 10;
      assert s[|s| - 1] == DigitChar(a % 10) == DigitChar(b % 10);
      assert NatString(a / 10) == s[..|s| - 1] == NatString(b / 10);
      NatStringInjective(a / 10, b / 10);
    }
  }

  /** Two different users never get the same session id. */
  lemma IdStringInjective(a: int, b: int)
    requires IdString(a) == IdString(b)
    ensures a == b
  {
    if a < 0 {
      assert IdString(a)[1..] == NatString(-a) && IdString(b)[1..] == NatString(-b);
      NatStringInjective(-a, -b);
    } else {
      NatStringInjective(a, b);
    }
  }
}
