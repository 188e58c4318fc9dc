/** Option values from `mudslide/utils/options.py`: which stored value a
    lookup returns, the logged-in guard on saving, and the type checks
    run on loaded data. */
module Options {
  import opened Wrappers

  /** The Python values an option can hold. A `bool` is an `int` to
      `isinstance`, which `IsInt` reflects. */
  datatype PyValue = PyStr(s: string) | PyInt(i: int) | PyBool(b: bool) | PyNone

  /** `isinstance(v, int)`. */
  predicate IsInt(v: PyValue) {
    v.PyInt? || v.PyBool?
  }

  /** The number an `int` (or `bool`) stands for. */
  function IntValue(v: PyValue): int
    requires IsInt(v)
  {
    match v
    case PyInt(i) => i
    case PyBool(b) => if b then 1 else 0
  }

  function DigitChar(d: int): char
    requires 0 <= d < 10
  {
    "0123456789"[d]
  }

  /** The decimal digits of a natural number, most significant first. */
  function Digits(n: nat): (r: string)
    ensures |r| > 0
    decreases n
  {
    if n < 10 then [DigitChar(n)] else Digits(n / 10) + [DigitChar(n % 10)]
  }

  /** `str(v)`. */
  function Str(v: PyValue): (r: string)
    ensures r == "" <==> v == PyStr("")
  {
    match v
    case PyStr(s) => s
    case PyInt(i) => if i < 0 then "-" + Digits(-i) else Digits(i)
    case PyBool(b) => if b then "True" else "False"
    case PyNone => "None"
  }

  /** The option classes whose loaded data is checked. */
  datatype Kind = Text | Email | Boolean | UnsignedInteger | SignedInteger | PositiveInteger

  /** `deserialize` of each option class: the accepted value, unchanged
      or as its string, or the `ValueError` the class raises. */
  function Deserialize(kind: Kind, key: string, v: PyValue): (r: Result<PyValue>)
    ensures r.Err? ==> r.error.ValueError?
    ensures r.Ok? && (kind == Text || kind == Email) ==> r.value == PyStr(Str(v))
    ensures r.Ok? && kind != Text && kind != Email ==> r.value == v
  {
    var got := "'" + Str(v) + "'";
    match kind
    case Text =>
      if Str(v) == "" then Err(ValueError(key + " expected Text data, got " + got)) else Ok(PyStr(Str(v)))
    case Email =>
      if Str(v) == "" then Err(ValueError(key + " expected String data, got " + got)) else Ok(PyStr(Str(v)))
    case Boolean =>
      if !v.PyBool? then Err(ValueError(key + " expected Boolean, got " + got)) else Ok(v)
    case UnsignedInteger =>
      if IsInt(v) && IntValue(v) >= 0 then Ok(v) else Err(ValueError(key + " expected Whole Number 0+, got " + got))
    case SignedInteger =>
      if IsInt(v) then Ok(v) else Err(ValueError(key + " expected Whole Number, got " + got))
    case PositiveInteger =>
      if IsInt(v) && IntValue(v) > 0 then Ok(v) else Err(ValueError(key + " expected Whole Number 1+, got " + got))
  }

  /** What each class accepts, stated independently of the checks. */
  predicate Accepts(kind: Kind, v: PyValue) {
    match kind
    case Text => v != PyStr("")
    case Email => v != PyStr("")
    case Boolean => v.PyBool?
    case UnsignedInteger => (v.PyInt? && v.i >= 0) || v.PyBool?
    case SignedInteger => v.PyInt? || v.PyBool?
    case PositiveInteger => (v.PyInt? && v.i > 0) || v == PyBool(true)
  }

  /** Loading succeeds exactly on the accepted values. */
  lemma DeserializeAccepts(kind: Kind, key: string, v: PyValue)
    ensures Deserialize(kind, key, v).Ok? <==> Accepts(kind, v)
  {
  }

  /** Loading a loaded value again gives it back unchanged. */
  lemma DeserializeIdempotent(kind: Kind, key: string, v: PyValue)
    requires Deserialize(kind, key, v).Ok?
    ensures Deserialize(kind, key, Deserialize(kind, key, v).value) == Deserialize(kind, key, v)
  {
  }

  /** The integer kinds nest, and every boolean is also a whole number:
      `True` passes the unsigned and positive checks. */
  lemma IntegerKindsNest(key: string, v: PyValue)
    ensures Deserialize(PositiveInteger, key, v).Ok? ==> Deserialize(UnsignedInteger, key, v).Ok?
    ensures Deserialize(UnsignedInteger, key, v).Ok? ==> Deserialize(SignedInteger, key, v).Ok?
    ensures Deserialize(Boolean, key, v).Ok? ==> Deserialize(UnsignedInteger, key, v).Ok?
    ensures Deserialize(UnsignedInteger, key, PyBool(true)) == Ok(PyBool(true))
    ensures Deserialize(PositiveInteger, key, PyBool(true)) == Ok(PyBool(true))
    ensures Deserialize(PositiveInteger, key, PyBool(false)).Err?
  {
  }

  /** The option itself: its key and default. */
  datatype BaseOption = BaseOption(key: string, defaultValue: PyValue)

  /** What a lookup reads from a connection: its temporary options and
      whether an account is logged in. */
  datatype Connection = Connection(options: map<string, PyValue>, loggedIn: bool)

  /** `BaseOption.get`: the temporary value unless ignored, else the
      default when logged out, else the account's value (`account`,
      which the account object supplies). */
  function Get(opt: BaseOption, conn: Connection, ignoreTemporary: bool, account: PyValue): (r: PyValue)
    ensures opt.key in conn.options && !ignoreTemporary ==> r == conn.options[opt.key]
    ensures (opt.key !in conn.options || ignoreTemporary) && !conn.loggedIn ==> r == opt.defaultValue
    ensures (opt.key !in conn.options || ignoreTemporary) && conn.loggedIn ==> r == account
  {
    if opt.key in conn.options && !ignoreTemporary then conn.options[opt.key]
    else if !conn.loggedIn then opt.defaultValue
    else account
  }

  /** The account is consulted only when there is no usable temporary
      value and an account is logged in. */
  lemma GetAccountOnlyWhenLoggedIn(opt: BaseOption, conn: Connection, ignoreTemporary: bool, a: PyValue, b: PyValue)
    requires !conn.loggedIn || (opt.key in conn.options && !ignoreTemporary)
    ensures Get(opt, conn, ignoreTemporary, a) == Get(opt, conn, ignoreTemporary, b)
  {
  }

  /** A temporary value shadows the stored one until lookups ignore
      temporaries. */
  lemma TemporaryShadows(opt: BaseOption, conn: Connection, v: PyValue, account: PyValue)
    ensures var c := conn.(options := conn.options[opt.key := v]);
            Get(opt, c, false, account) == v
            && Get(opt, c, true, account) == Get(opt, conn.(options := map k | k in conn.options && k != opt.key :: conn.options[k]), false, account)
  {
  }

  /** `BaseOption.save` as written: logged out, nothing happens; logged
      in, it calls `serialize(connection, final_value)`, but every
      `serialize` takes one value (`BaseOption`) or none (`Boolean`,
      `Timezone`), so the call raises `TypeError` before anything reaches
      the account. */
  function SaveAsWritten(conn: Connection, value: PyValue): (r: Result<Option<PyValue>>)
    ensures r.Ok? <==> !conn.loggedIn
    ensures r.Ok? ==> r.value.None?
  {
    if !conn.loggedIn then Ok(None) else Err(TypeError)
  }

  /** No logged-in save ever reaches the account. */
  lemma SaveAsWrittenNeverWrites(conn: Connection, value: PyValue)
    ensures SaveAsWritten(conn, value) != Ok(Some(value))
    ensures conn.loggedIn ==> SaveAsWritten(conn, value) == Err(TypeError)
  {
  }

  /** `BaseOption.save` as intended: nothing reaches the account while
      logged out; otherwise `self.serialize(final_value)` does, with every
      class's `serialize` taking the value being saved (`serialize` is that
      serialiser). */
  function Save(conn: Connection, value: PyValue, serialize: PyValue -> PyValue): (written: Option<PyValue>)
    ensures written.None? <==> !conn.loggedIn
    ensures written.Some? ==> written.value == serialize(value)
  {
    if !conn.loggedIn then None else Some(serialize(value))
  }

  /** The corrected save agrees with the code as written whenever the
      code as written does not raise. */
  lemma SaveAgreesWhenLoggedOut(conn: Connection, value: PyValue, serialize: PyValue -> PyValue)
    requires SaveAsWritten(conn, value).Ok?
    ensures Save(conn, value, serialize) == SaveAsWritten(conn, value).value
  {
  }

  /** What a logged-in save writes is what a lookup that skips temporary
      values then reads from the account. */
  lemma SaveThenGet(opt: BaseOption, conn: Connection, value: PyValue, serialize: PyValue -> PyValue)
    requires conn.loggedIn
    ensures Save(conn, value, serialize).Some?
    ensures Get(opt, conn, true, Save(conn, value, serialize).value) == serialize(value)
  {
  }

  /** For the classes modelled here the intended `serialize` hands the
      value on unchanged (`Boolean.serialize` already returns the value;
      the others inherit `BaseOption.serialize`). A saved value that the
      class accepts is read back and loaded as the same value. Text and
      e-mail values are saved as strings, which their validators return. */
  lemma SaveLoadRoundTrip(kind: Kind, opt: BaseOption, conn: Connection, value: PyValue)
    requires conn.loggedIn && Accepts(kind, value)
    requires kind == Text || kind == Email ==> value.PyStr?
    ensures var written := Save(conn, value, (x: PyValue) => x);
            written == Some(value)
            && Deserialize(kind, opt.key, Get(opt, conn, true, written.value)) == Ok(value)
  {
    DeserializeAccepts(kind, opt.key, value);
  }
}
