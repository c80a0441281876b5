/** The rows of the `users`, `user_settings` and `notes` tables (db.go), the
    note-flag constants, Go's `int32` conversion and the two date layouts the
    application formats with. */
module Records {
  import opened Text

  datatype Option<T> = None | Some(value: T)

  const MinInt32: int := -0x8000_0000
  const MaxInt32: int := 0x7FFF_FFFF

  /** Go's `int32`. */
  type Int32 = x: int | MinInt32 <= x <= MaxInt32

  /** The conversion `int32(x)` of a Go `int`: keeps the low 32 bits, read as a
      two's-complement number. */
  function ToInt32(x: int): (r: Int32)
    ensures (x - r) % 0x1_0000_0000 == 0
    ensures MinInt32 <= x <= MaxInt32 ==> r == x
  {
    (x - MinInt32) % 0x1_0000_0000 + MinInt32
  }

  /** Note flags: an index into Note, In Progress, Completed, Cancelled, Delegated. */
  const NoteFlagMax: int := 5
  const NoteFlagCompleted: int := 2
  /** The longest note name that is stored. */
  const NoteNameMaxLength: int := 255

  /** A calendar day. Notes keep a full timestamp; the application only ever
      looks at it through the day-level layouts below. */
  datatype Date = Date(year: nat, month: nat, day: nat)

  predicate ValidDate(d: Date)
  {
    d.year <= 9999 && 1 <= d.month <= 12 && 1 <= d.day <= 31
  }

  /** `Format("2006-01-02")`. */
  function IsoDate(d: Date): string
  {
    PadDecimal(d.year, 4) + "-" + PadDecimal(d.month, 2) + "-" + PadDecimal(d.day, 2)
  }

  /** `Format("02/01/2006")`. */
  function ShortDate(d: Date): string
  {
    PadDecimal(d.day, 2) + "/" + PadDecimal(d.month, 2) + "/" + PadDecimal(d.year, 4)
  }

  /** Two days are written the same in the `2006-01-02` layout only if they are
      the same day, so comparing formatted dates compares days. */
  lemma IsoDateInjective(a: Date, b: Date)
    requires ValidDate(a) && ValidDate(b)
    requires IsoDate(a) == IsoDate(b)
    ensures a == b
  {
    PadDecimalLength(a.year, 4);
    PadDecimalLength(a.month, 2);
    PadDecimalLength(a.day, 2);
    PadDecimalLength(b.year, 4);
    PadDecimalLength(b.month, 2);
    PadDecimalLength(b.day, 2);
    var s, t := IsoDate(a), IsoDate(b);
    assert s[..4] == PadDecimal(a.year, 4) && t[..4] == PadDecimal(b.year, 4);
    assert s[5..7] == PadDecimal(a.month, 2) && t[5..7] == PadDecimal(b.month, 2);
    assert s[8..] == PadDecimal(a.day, 2) && t[8..] == PadDecimal(b.day, 2);
    PadDecimalInjective(a.year, b.year, 4);
    PadDecimalInjective(a.month, b.month, 2);
    PadDecimalInjective(a.day, b.day, 2);
  }

  /** A row of `users`; `password` holds the bcrypt hash. */
  datatype User = User(id: Int32, username: string, password: string)

  /** A row of `user_settings`. */
  datatype UserSettings = UserSettings(id: Int32, userId: Int32, colleagues: seq<int>)

  /** A row of `notes`. `share` is the list of user ids the note is shared with. */
  datatype Note = Note(
    owner: Int32,
    share: seq<int>,
    name: string,
    date: Date,
    completionDate: Date,
    flag: int,
    content: string)
}
