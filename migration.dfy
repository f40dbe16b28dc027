/** The value coercions of the SQLite-to-PostgreSQL migration script
    (old_tests/migrate_sqlite_to_postgres.py): `to_bool`, which turns a
    stored flag into a boolean, and the default for a missing recipient list. */
module Migration {
  import opened Wrappers
  import opened Decimal

  /** The Python values a SQLite column hands the script (floats and blobs
      are not part of this model). */
  datatype PyValue = PyNone | PyBool(b: bool) | PyInt(i: int) | PyStr(s: string)

  predicate IsSign(c: char) {
    c == '+' || c == '-'
  }

  /** `int(s)` on a string: an optional sign followed by one or more ASCII
      digits; anything else raises, which is `None` here. */
  function ParseInt(s: string): (r: Option<int>)
    ensures r.Some? <==> (|s| >= 1 && AllDigits(s)) || (|s| >= 2 && IsSign(s[0]) && AllDigits(s[1..]))
  {
    if |s| >= 2 && IsSign(s[0]) && AllDigits(s[1..]) then
      var magnitude: int := DigitsValue(s[1..]);
      Some(if s[0] == '-' then -magnitude else magnitude)
    else if |s| >= 1 && AllDigits(s) then Some(DigitsValue(s))
    else None
  }

  /** `to_bool(v)`: None is false, a bool is itself, and anything else is
      `bool(int(v))` when `int(v)` succeeds and `bool(v)` when it raises. A
      string is false exactly when it is empty or a numeral of zero. */
  function ToBool(v: PyValue): (r: bool)
    ensures v.PyStr? ==> (!r <==> v.s == [] || ParseInt(v.s) == Some(0))
  {
    match v
    case PyNone => false
    case PyBool(b) => b
    case PyInt(i) => i != 0
    case PyStr(s) =>
      match ParseInt(s)
      case Some(n) => n != 0
      case None => s != []
  }

  /** `row["mail_to"] if row["mail_to"] is not None else json.dumps([])`. */
  function MailTo(v: PyValue): (r: PyValue)
    ensures !r.PyNone?
    ensures v.PyNone? ==> r == PyStr("[]")
    ensures !v.PyNone? ==> r == v
  {
    if v.PyNone? then PyStr("[]") else v
  }

  // ---------- properties ----------

  /** `int` reads back what `str` writes. */
  lemma ParseIntString(n: int)
    ensures ParseInt(IntString(n)) == Some(n)
  {
    if n < 0 {
      var m := NatString(-n);
      assert IntString(n)[1..] == m;
      NatStringValue(-n);
    } else {
      NatStringValue(n);
      assert !IsSign(NatString(n)[0]);
    }
  }

  /** A string holding a number is false exactly when the number is zero. */
  lemma ToBoolNumeral(n: int)
    ensures ToBool(PyStr(IntString(n))) == (n != 0)
  {
    ParseIntString(n);
  }

  /** Any numeral `int` accepts, leading zeros and a `+` included, is false
      exactly when its digits spell zero: `"00"`, `"+0"` and `"-000"` are false,
      `"007"` is true. */
  lemma ToBoolSignedDigits(sign: string, d: string)
    requires sign == "" || sign == "+" || sign == "-"
    requires |d| >= 1 && AllDigits(d)
    ensures ToBool(PyStr(sign + d)) == (DigitsValue(d) != 0)
  {
    var s := sign + d;
    if sign == "" {
      assert s == d;
      assert !IsSign(d[0]);
    } else {
      assert s[0] == sign[0] && s[1..] == d;
    }
  }

  /** A string with a character that is neither a digit nor a sign is not a
      number, so it is true: it is not empty. */
  lemma ToBoolNonNumeral(s: string, k: nat)
    requires k < |s| && !IsDigit(s[k]) && !IsSign(s[k])
    ensures ParseInt(s) == None
    ensures ToBool(PyStr(s))
  {
    assert !AllDigits(s);
    if |s| >= 2 && k >= 1 {
      assert s[1..][k - 1] == s[k];
    }
  }

  lemma ToBoolNone()
    ensures !ToBool(PyNone)
  { }

  lemma ToBoolInt(i: int)
    ensures ToBool(PyInt(i)) <==> i != 0
  { }

  lemma ToBoolBool(b: bool)
    ensures ToBool(PyBool(b)) == b
  { }

  /** The cases the script depends on: SQLite's 0/1 and the strings that
      look like booleans but are not numbers. */
  lemma ToBoolExamples()
    ensures !ToBool(PyStr("0")) && ToBool(PyStr("1"))
    ensures !ToBool(PyStr("-0")) && ToBool(PyStr("+7"))
    ensures !ToBool(PyStr(""))
    ensures ToBool(PyStr("abc")) && ToBool(PyStr("False"))
  {
    ToBoolNumeral(0);
    ToBoolNumeral(1);
    ToBoolNonNumeral("abc", 0);
    ToBoolNonNumeral("False", 0);
    assert AllDigits("0") && DigitsValue("-0"[1..]) == 0;
    assert AllDigits("+7"[1..]) && DigitsValue("+7"[1..]) == 7;
  }

  /** The default applies once: a second application changes nothing. */
  lemma MailToIdempotent(v: PyValue)
    ensures MailTo(MailTo(v)) == MailTo(v)
  { }
}
