/** The relative path under which an export is pushed (app.py:312-322): the optional dated
    sub-folder and `join_path`. The date is a parameter; the program reads the clock. */
module ExportPaths {
  import opened Wrappers
  import opened Text

  /** `sep.join(parts)`. */
  function Join(parts: seq<string>, sep: char): string {
    if |parts| == 0 then ""
    else if |parts| == 1 then parts[0]
    else parts[0] + [sep] + Join(parts[1..], sep)
  }

  /** `[p for p in parts if p]`. */
  function NonEmpty(parts: seq<string>): seq<string> {
    if |parts| == 0 then []
    else (if parts[0] == "" then [] else [parts[0]]) + NonEmpty(parts[1..])
  }

  /** The filter over the three arguments of `join_path`, written out. */
  lemma NonEmptyOfThree(a: string, b: string, c: string)
    ensures NonEmpty([a, b, c])
      == (if a == "" then [] else [a]) + (if b == "" then [] else [b]) + (if c == "" then [] else [c])
  {
    assert [a, b, c][1..] == [b, c];
    assert [b, c][1..] == [c];
    assert [c][1..] == [];
    assert NonEmpty([c]) == (if c == "" then [] else [c]) + NonEmpty([]);
    assert NonEmpty([b, c]) == (if b == "" then [] else [b]) + NonEmpty([c]);
  }

  /** `join_path(base, date_path, name)`: the non-empty parts joined with "/". */
  function JoinPath(base: string, datePath: string, name: string): string {
    Join(NonEmpty([base, datePath, name]), '/')
  }

  /** Position of the first occurrence of `c` in `s`. */
  function IndexOf(s: string, c: char): (r: Option<nat>)
    ensures r.Some? ==> r.value < |s| && s[r.value] == c && forall j :: 0 <= j < r.value ==> s[j] != c
    ensures r.None? ==> c !in s
  {
    if |s| == 0 then None
    else if s[0] == c then Some(0)
    else match IndexOf(s[1..], c)
      case None => None
      case Some(i) => Some(i + 1)
  }

  /** The first separator of `a + [c] + b` is the one after `a` when `a` has none. */
  lemma {:induction false} IndexOfAfter(a: string, c: char, b: string)
    requires c !in a
    ensures IndexOf(a + [c] + b, c) == Some(|a|)
  {
    if |a| > 0 {
      assert (a + [c] + b)[1..] == a[1..] + [c] + b;
      IndexOfAfter(a[1..], c, b);
    }
  }

  /** `s.split(sep)` for a one-character separator. */
  function Split(s: string, sep: char): seq<string>
    decreases |s|
  {
    match IndexOf(s, sep)
    case None => [s]
    case Some(i) => [s[..i]] + Split(s[i + 1..], sep)
  }

  /** Splitting a joined list gives the list back when no part holds the separator. */
  lemma {:induction false} SplitJoin(parts: seq<string>, sep: char)
    requires |parts| > 0
    requires forall j :: 0 <= j < |parts| ==> sep !in parts[j]
    ensures Split(Join(parts, sep), sep) == parts
  {
    if |parts| > 1 {
      var s := Join(parts, sep);
      var rest := Join(parts[1..], sep);
      assert s == parts[0] + [sep] + rest;
      IndexOfAfter(parts[0], sep, rest);
      assert s[..|parts[0]|] == parts[0];
      assert s[|parts[0]| + 1..] == rest;
      SplitJoin(parts[1..], sep);
    }
  }

  /** The parts of a joined path are exactly its non-empty arguments, in order, when no
      argument holds a "/". */
  lemma JoinPathParts(base: string, datePath: string, name: string)
    requires '/' !in base && '/' !in datePath && '/' !in name
    requires base != "" || datePath != "" || name != ""
    ensures Split(JoinPath(base, datePath, name), '/') == NonEmpty([base, datePath, name])
  {
    NonEmptyOfThree(base, datePath, name);
    var parts := NonEmpty([base, datePath, name]);
    assert forall j :: 0 <= j < |parts| ==> parts[j] == base || parts[j] == datePath || parts[j] == name;
    SplitJoin(parts, '/');
  }

  /** An undated path skips the empty date part: base and name joined by a single "/". */
  lemma UndatedPath(base: string, name: string)
    requires base != "" && name != ""
    ensures JoinPath(base, "", name) == base + "/" + name
  {
    NonEmptyOfThree(base, "", name);
    assert NonEmpty([base, "", name]) == [base, name];
    assert [base, name][1..] == [name];
    assert Join([base, name], '/') == base + "/" + Join([name], '/');
  }

  /** With neither a base nor a date folder, the path is the name alone. */
  lemma NameOnlyPath(name: string)
    requires name != ""
    ensures JoinPath("", "", name) == name
  {
    NonEmptyOfThree("", "", name);
  }

  function DigitChar(d: nat): char
    requires d < 10
  {
    ('0' as int + d) as char
  }

  predicate AllDigits(s: string) {
    forall i :: 0 <= i < |s| ==> '0' <= s[i] <= '9'
  }

  /** The decimal digits of `n`, without leading zeros. */
  function Decimal(n: nat): (r: string)
    ensures |r| >= 1 && AllDigits(r)
  {
    if n < 10 then [DigitChar(n)] else Decimal(n / 10) + [DigitChar(n % 10)]
  }

  /** The number a string of decimal digits denotes. */
  function DigitsValue(s: string): nat
    requires AllDigits(s)
  {
    if |s| == 0 then 0 else DigitsValue(s[..|s| - 1]) * 10 + (s[|s| - 1] as int - '0' as int)
  }

  function Zeros(k: nat): (r: string)
    ensures |r| == k && AllDigits(r)
  {
    if k == 0 then "" else Zeros(k - 1) + "0"
  }

  /** `f"{n:0{width}d}"`: the decimal digits of `n`, zero-padded on the left to `width`. */
  function Pad(n: nat, width: nat): (r: string)
    ensures AllDigits(r)
  {
    var digits := Decimal(n);
    (if |digits| < width then Zeros(width - |digits|) else "") + digits
  }

  lemma {:induction false} DecimalValue(n: nat)
    ensures DigitsValue(Decimal(n)) == n
  {
    if n >= 10 {
      DecimalValue(n / 10);
      var s := Decimal(n);
      assert s[..|s| - 1] == Decimal(n / 10);
    }
  }

  lemma {:induction false} ZerosValueZero(k: nat)
    ensures DigitsValue(Zeros(k)) == 0
  {
    if k > 0 {
      var z := Zeros(k);
      var z0 := Zeros(k - 1);
      assert z == z0 + "0";
      assert z[..k - 1] == z0;
      ZerosValueZero(k - 1);
      assert DigitsValue(z) == DigitsValue(z0) * 10 + (z[k - 1] as int - '0' as int);
    }
  }

  lemma {:induction false} ZerosValue(k: nat, s: string)
    requires AllDigits(s)
    ensures DigitsValue(Zeros(k) + s) == DigitsValue(s)
    decreases |s|
  {
    if |s| == 0 {
      assert Zeros(k) + s == Zeros(k);
      ZerosValueZero(k);
    } else {
      var t := Zeros(k) + s;
      var front := s[..|s| - 1];
      assert t[..|t| - 1] == Zeros(k) + front;
      assert t[|t| - 1] == s[|s| - 1];
      ZerosValue(k, front);
    }
  }

  /** Zero padding never changes the number a field denotes, and pads to the width. */
  lemma PadSpec(n: nat, width: nat)
    ensures DigitsValue(Pad(n, width)) == n
    ensures |Pad(n, width)| == if |Decimal(n)| < width then width else |Decimal(n)|
  {
    DecimalValue(n);
    var digits := Decimal(n);
    if |digits| < width {
      ZerosValue(width - |digits|, digits);
    } else {
      assert Pad(n, width) == digits;
    }
  }

  function Pow10(k: nat): nat {
    if k == 0 then 1 else 10 * Pow10(k - 1)
  }

  lemma {:induction false} DecimalFits(n: nat, k: nat)
    requires k >= 1 && n < Pow10(k)
    ensures |Decimal(n)| <= k
  {
    if n >= 10 {
      assert k >= 2;
      assert n / 10 < Pow10(k - 1);
      DecimalFits(n / 10, k - 1);
    }
  }

  /** A calendar date as `datetime` holds it. */
  datatype Date = Date(year: nat, month: nat, day: nat)

  predicate ValidDate(d: Date) {
    1 <= d.year <= 9999 && 1 <= d.month <= 12 && 1 <= d.day <= 31
  }

  /** `f"{dt.year:04d}/{dt.month:02d}/{dt.day:02d}" if use_dates else ""`. */
  function DatePath(d: Date, useDates: bool): (r: string)
    ensures r != "" <==> useDates
  {
    if useDates then Pad(d.year, 4) + "/" + Pad(d.month, 2) + "/" + Pad(d.day, 2) else ""
  }

  /** `STATIC_DATED_SUBFOLDERS` read as a flag: "1", "true", "yes" or "on", in any case. */
  predicate UseDatedFolders(flag: string) {
    Lower(flag) in ["1", "true", "yes", "on"]
  }

  /** `os.getenv(key, fallback)`: the variable's value, or the fallback when it is unset. */
  function GetEnv(value: Option<string>, fallback: string): string {
    match value
    case None => fallback
    case Some(v) => v
  }

  predicate IsSlash(c: char) {
    c == '/'
  }

  /** The pushed path of an export named `name` on day `d`, from the values of
      `STATIC_PATH` (stripped of "/", empty when unset) and `STATIC_DATED_SUBFOLDERS`
      ("true" when unset). */
  function ExportPath(staticPath: Option<string>, datedFlag: Option<string>, d: Date, name: string): string {
    var base := Trim(GetEnv(staticPath, ""), IsSlash);
    JoinPath(base, DatePath(d, UseDatedFolders(GetEnv(datedFlag, "true"))), name)
  }

  /** A number below 10^width fills its padded field exactly. */
  lemma PadWidth(n: nat, width: nat)
    requires width >= 1 && n < Pow10(width)
    ensures |Pad(n, width)| == width && DigitsValue(Pad(n, width)) == n
  {
    DecimalFits(n, width);
    PadSpec(n, width);
  }

  /** The three fields of a dated folder, each of its full width. */
  lemma DateFields(d: Date)
    requires ValidDate(d)
    ensures |Pad(d.year, 4)| == 4 && DigitsValue(Pad(d.year, 4)) == d.year
    ensures |Pad(d.month, 2)| == 2 && DigitsValue(Pad(d.month, 2)) == d.month
    ensures |Pad(d.day, 2)| == 2 && DigitsValue(Pad(d.day, 2)) == d.day
  {
    assert Pow10(2) == 100;
    assert Pow10(4) == 10000;
    PadWidth(d.year, 4);
    PadWidth(d.month, 2);
    PadWidth(d.day, 2);
  }

  lemma NoSlashInDigits(s: string)
    requires AllDigits(s)
    ensures '/' !in s
  {
  }

  /** Three digit fields of widths 4, 2 and 2 joined by "/" split back into themselves. */
  lemma ThreeFields(y: string, m: string, dd: string)
    requires AllDigits(y) && AllDigits(m) && AllDigits(dd)
    requires |y| == 4 && |m| == 2 && |dd| == 2
    ensures var p := y + "/" + m + "/" + dd;
      |p| == 10 && p[4] == '/' && p[7] == '/' && Split(p, '/') == [y, m, dd]
  {
    var parts := [y, m, dd];
    assert Join(parts, '/') == y + "/" + m + "/" + dd by {
      assert parts[1..] == [m, dd];
      assert [m, dd][1..] == [dd];
      assert Join([m, dd], '/') == m + ['/'] + dd;
      assert Join(parts, '/') == y + ['/'] + (m + ['/'] + dd);
    }
    NoSlashInDigits(y);
    NoSlashInDigits(m);
    NoSlashInDigits(dd);
    SplitJoin(parts, '/');
  }

  /** The dated folder is "YYYY/MM/DD": ten characters, fixed-width fields, and the fields
      read back as the year, month and day. */
  lemma DatePathSpec(d: Date)
    requires ValidDate(d)
    ensures |DatePath(d, true)| == 10
    ensures DatePath(d, true)[4] == '/' && DatePath(d, true)[7] == '/'
    ensures var fields := Split(DatePath(d, true), '/');
      && fields == [Pad(d.year, 4), Pad(d.month, 2), Pad(d.day, 2)]
      && DigitsValue(fields[0]) == d.year && DigitsValue(fields[1]) == d.month && DigitsValue(fields[2]) == d.day
  {
    DateFields(d);
    ThreeFields(Pad(d.year, 4), Pad(d.month, 2), Pad(d.day, 2));
  }

  /** A first separator inside `a` stays the first one whatever follows `a`. */
  lemma IndexOfPrefix(a: string, c: char, rest: string)
    requires IndexOf(a, c).Some?
    ensures IndexOf(a + rest, c) == IndexOf(a, c)
  {
    var i := IndexOf(a, c).value;
    assert (a + rest)[i] == c;
    var r := IndexOf(a + rest, c);
    assert r.value <= i;
  }

  /** A split at the only separator of `a + [sep] + b` in front of `b`. */
  lemma SplitAtFirst(a: string, sep: char, b: string)
    requires sep !in a
    ensures Split(a + [sep] + b, sep) == [a] + Split(b, sep)
  {
    var s := a + [sep] + b;
    IndexOfAfter(a, sep, b);
    assert s[..|a|] == a;
    assert s[|a| + 1..] == b;
  }

  /** A split whose first separator lies inside `a`. */
  lemma SplitInside(a: string, sep: char, rest: string, i: nat)
    requires IndexOf(a, sep) == Some(i)
    ensures Split(a + rest, sep) == [a[..i]] + Split(a[i + 1..] + rest, sep)
  {
    IndexOfPrefix(a, sep, rest);
    var s := a + rest;
    assert s[..i] == a[..i];
    assert s[i + 1..] == a[i + 1..] + rest;
  }

  /** Splitting at a separator splits the two sides independently, as `str.split` does. */
  lemma {:induction false} SplitAround(a: string, sep: char, b: string)
    ensures Split(a + [sep] + b, sep) == Split(a, sep) + Split(b, sep)
    decreases |a|
  {
    match IndexOf(a, sep)
    case None =>
      SplitAtFirst(a, sep, b);
    case Some(i) =>
      SplitAround(a[i + 1..], sep, b);
      SplitAroundStep(a, sep, b, i);
  }

  /** The inductive step of `SplitAround`, past the first separator inside `a`. */
  lemma SplitAroundStep(a: string, sep: char, b: string, i: nat)
    requires IndexOf(a, sep) == Some(i)
    requires Split(a[i + 1..] + [sep] + b, sep) == Split(a[i + 1..], sep) + Split(b, sep)
    ensures Split(a + [sep] + b, sep) == Split(a, sep) + Split(b, sep)
  {
    SplitPastFirst(a, sep, b, i);
    SplitInside(a, sep, [], i);
    assert a + [] == a && a[i + 1..] + [] == a[i + 1..];
    PrependConcat(a[..i], Split(a[i + 1..], sep), Split(b, sep));
  }

  /** `a/b` split at the first separator inside `a`. */
  lemma SplitPastFirst(a: string, sep: char, b: string, i: nat)
    requires IndexOf(a, sep) == Some(i)
    ensures Split(a + [sep] + b, sep) == [a[..i]] + Split(a[i + 1..] + [sep] + b, sep)
  {
    SplitInside(a, sep, [sep] + b, i);
    assert a + [sep] + b == a + ([sep] + b);
    assert a[i + 1..] + ([sep] + b) == a[i + 1..] + [sep] + b;
  }

  lemma PrependConcat(h: string, xs: seq<string>, ys: seq<string>)
    ensures [h] + (xs + ys) == ([h] + xs) + ys
  {
  }

  /** The dated folder and a name joined by "/". */
  lemma DateAndName(d: Date, name: string)
    requires ValidDate(d) && '/' !in name
    ensures Split(DatePath(d, true) + "/" + name, '/')
              == [Pad(d.year, 4), Pad(d.month, 2), Pad(d.day, 2), name]
  {
    DatePathSpec(d);
    SplitAround(DatePath(d, true), '/', name);
    assert Split(name, '/') == [name];
  }

  /** With dated sub-folders and a file name, the pushed path is the base (when set), the
      "YYYY/MM/DD" folder and the name joined by "/". The base may be empty (the default),
      nested, or hold anything else. */
  lemma DatedPath(base: string, d: Date, name: string)
    requires ValidDate(d) && name != ""
    ensures JoinPath(base, DatePath(d, true), name)
              == (if base == "" then "" else base + "/") + DatePath(d, true) + "/" + name
  {
    var dp := DatePath(d, true);
    DateFields(d);
    assert dp != "";
    NonEmptyOfThree(base, dp, name);
    assert Join([dp, name], '/') == dp + "/" + name by {
      assert [dp, name][1..] == [name];
    }
    if base != "" {
      assert NonEmpty([base, dp, name]) == [base, dp, name];
      assert [base, dp, name][1..] == [dp, name];
    } else {
      assert NonEmpty([base, dp, name]) == [dp, name];
    }
  }

  /** Putting an optional base folder in front of a path puts the base's parts in front of
      its parts. */
  lemma BaseInFront(base: string, rest: string)
    ensures Split((if base == "" then "" else base + "/") + rest, '/')
              == (if base == "" then [] else Split(base, '/')) + Split(rest, '/')
  {
    if base == "" {
      assert "" + rest == rest;
    } else {
      assert base + "/" + rest == base + ['/'] + rest;
      SplitAround(base, '/', rest);
    }
  }

  /** The "/"-separated parts of a dated path are the base's own parts (none when the base
      is empty), the three date fields and the file name. */
  lemma DatedPathParts(base: string, d: Date, name: string)
    requires ValidDate(d) && name != "" && '/' !in name
    ensures Split(JoinPath(base, DatePath(d, true), name), '/')
              == (if base == "" then [] else Split(base, '/'))
                 + [Pad(d.year, 4), Pad(d.month, 2), Pad(d.day, 2), name]
  {
    var front := if base == "" then "" else base + "/";
    var rest := DatePath(d, true) + "/" + name;
    DatedPath(base, d, name);
    assert JoinPath(base, DatePath(d, true), name) == front + rest;
    DateAndName(d, name);
    BaseInFront(base, rest);
  }

  lemma LowerIdempotent(s: string)
    ensures Lower(Lower(s)) == Lower(s)
  {
  }

  /** The flag ignores case, accepts exactly its four spellings, and is on when unset. */
  lemma UseDatedFoldersSpec(flag: string)
    ensures UseDatedFolders(flag) <==> UseDatedFolders(Lower(flag))
    ensures UseDatedFolders(GetEnv(None, "true"))
    ensures UseDatedFolders("1") && UseDatedFolders("TRUE") && UseDatedFolders("Yes") && UseDatedFolders("ON")
    ensures !UseDatedFolders("") && !UseDatedFolders("0") && !UseDatedFolders("false") && !UseDatedFolders("no")
  {
    LowerIdempotent(flag);
    assert Lower("true") == "true";
    assert Lower("TRUE") == "true";
    assert Lower("Yes") == "yes";
    assert Lower("ON") == "on";
    assert Lower("1") == "1";
    assert Lower("0") == "0";
    assert Lower("false") == "false";
    assert Lower("no") == "no";
  }

  /** Under the default configuration (neither variable set) an export lands at
      "YYYY/MM/DD/name". */
  lemma ExportPathDefault(d: Date, name: string)
    requires ValidDate(d) && name != ""
    ensures ExportPath(None, None, d, name) == DatePath(d, true) + "/" + name
  {
    UseDatedFoldersSpec("true");
    assert Trim("", IsSlash) == "";
    DatedPath("", d, name);
  }

  /** With dated folders on, the export lands at the stripped base (when non-empty), the
      date folder and the name; the base neither starts nor ends with "/", so no empty
      path segment appears at the joins. */
  lemma ExportPathDated(staticPath: Option<string>, datedFlag: Option<string>, d: Date, name: string)
    requires ValidDate(d) && name != ""
    requires UseDatedFolders(GetEnv(datedFlag, "true"))
    ensures var base := Trim(GetEnv(staticPath, ""), IsSlash);
      && (base == "" || (base[0] != '/' && base[|base| - 1] != '/'))
      && ExportPath(staticPath, datedFlag, d, name)
           == (if base == "" then "" else base + "/") + DatePath(d, true) + "/" + name
  {
    var base := Trim(GetEnv(staticPath, ""), IsSlash);
    TrimSpec(GetEnv(staticPath, ""), IsSlash);
    DatedPath(base, d, name);
  }

  /** With dated folders off, the export lands at the stripped base and the name, or at
      the name alone. */
  lemma ExportPathUndated(staticPath: Option<string>, datedFlag: Option<string>, d: Date, name: string)
    requires name != ""
    requires !UseDatedFolders(GetEnv(datedFlag, "true"))
    ensures var base := Trim(GetEnv(staticPath, ""), IsSlash);
      ExportPath(staticPath, datedFlag, d, name) == (if base == "" then "" else base + "/") + name
  {
    var base := Trim(GetEnv(staticPath, ""), IsSlash);
    if base == "" {
      NameOnlyPath(name);
    } else {
      UndatedPath(base, name);
    }
  }
}
