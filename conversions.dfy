/**
 * The conversions the core applies to payload values: Python's `float(v)` and `int(v)`,
 * the colon time-code parse `_parse_time` (used by the resolver, where `_to_number` is the
 * same function followed by an identity `float()`), and the seek helper `_to_seconds_simple`.
 */
module Conversions {
  import opened Wrappers
  import opened Text
  import opened Values

  /**
   * `float(v)`: numbers convert to themselves, booleans to 1 or 0 (a Python bool is an int),
   * strings by the decimal grammar; None, dicts and lists raise, which is None here.
   */
  function PlainFloat(v: Value): Option<real> {
    match v
    case Num(x) => Some(x)
    case Bool(b) => Some(if b then 1.0 else 0.0)
    case Str(s) => ParseDecimal(s)
    case _ => None
  }

  /** `int(x)` on a float: truncation toward zero. */
  function Trunc(x: real): (t: int)
    ensures 0.0 <= x ==> 0 <= t && t as real <= x < t as real + 1.0
    ensures x < 0.0 ==> t <= 0 && t as real - 1.0 < x <= t as real
  {
    if x >= 0.0 then x.Floor else -((-x).Floor)
  }

  /** `int(v)`: truncated numbers, 0/1 for booleans, integer literals; anything else raises. */
  function PyInt(v: Value): Option<int> {
    match v
    case Num(x) => Some(Trunc(x))
    case Bool(b) => Some(if b then 1 else 0)
    case Str(s) => ParseInteger(s)
    case _ => None
  }

  /** `[float(x) for x in parts]`: every field parses, or the whole comprehension raises. */
  function ParseFields(parts: seq<string>): (r: Option<seq<real>>)
    ensures r.Some? ==> |r.value| == |parts|
    ensures r.Some? ==> forall i :: 0 <= i < |parts| ==> ParseDecimal(parts[i]) == Some(r.value[i])
    ensures r.None? ==> exists i :: 0 <= i < |parts| && ParseDecimal(parts[i]).None?
  {
    if parts == [] then Some([])
    else
      match ParseDecimal(parts[0])
      case None => None
      case Some(x) =>
        match ParseFields(parts[1..])
        case None => None
        case Some(xs) => Some([x] + xs)
  }

  /** `h*3600 + m*60 + s`. */
  function HoursMinutesSeconds(h: real, m: real, s: real): real {
    h * 3600.0 + m * 60.0 + s
  }

  /** `m*60 + s`. */
  function MinutesSeconds(m: real, s: real): real {
    m * 60.0 + s
  }

  /** Seconds of a parsed time code: hours, minutes, seconds; minutes, seconds; else the first field. */
  function FieldsSeconds(f: seq<real>): real
    requires |f| >= 1
  {
    if |f| == 3 then HoursMinutesSeconds(f[0], f[1], f[2])
    else if |f| == 2 then MinutesSeconds(f[0], f[1])
    else f[0]
  }

  /** The colon branch shared by `_parse_time` and `_to_seconds_simple`. */
  function ColonTime(s: string): Option<real> {
    match ParseFields(Split(s, ':'))
    case None => None
    case Some(f) => Some(FieldsSeconds(f))
  }

  /**
   * `_parse_time(v)`: None stays None; anything `float()` accepts is that number; otherwise
   * `str(v)` is split at ':'. The text of a dict or list starts with '{' or '[', so its first
   * field never parses and only strings reach the colon branch.
   */
  function ParseTime(v: Value): (r: Option<real>)
    ensures v.Null? || v.Map? || v.List? ==> r.None?
  {
    if v.Null? then None
    else
      match PlainFloat(v)
      case Some(x) => Some(x)
      case None => if v.Str? then ColonTime(v.s) else None
  }

  /** `v` seconds, in milliseconds. */
  function Millis(v: real): real {
    v * 1000.0
  }

  /** The rule of thumb for plain numbers: anything above 1000 is milliseconds. */
  function FromMillis(f: real): (r: real)
    ensures f > 1000.0 ==> 1.0 < r == f / 1000.0
    ensures f <= 1000.0 ==> r == f
  {
    if f > 1000.0 then f / 1000.0 else f
  }

  /**
   * `_to_seconds_simple(v)`: accepts exactly what `_parse_time` accepts and agrees with it,
   * except that a plain number above 1000 is read as milliseconds and divided by 1000 (the
   * colon branch is never rescaled).
   */
  function ToSecondsSimple(v: Value): (r: Option<real>)
    ensures r.Some? <==> ParseTime(v).Some?
    ensures r.Some? && PlainFloat(v).Some? ==> r.value == FromMillis(ParseTime(v).value)
    ensures r.Some? && PlainFloat(v).None? ==> r == ParseTime(v)
  {
    if v.Null? then None
    else
      match PlainFloat(v)
      case Some(f) => Some(FromMillis(f))
      case None => if v.Str? then ColonTime(v.s) else None
  }

  lemma {:induction false} JoinHasSeparator(fields: seq<string>, sep: char)
    requires |fields| >= 2
    ensures sep in Join(fields, sep)
  {
    assert Join(fields, sep)[|fields[0]|] == sep;
  }

  /** A string holding a colon is not a plain number, so `_parse_time` takes the colon branch. */
  lemma ParseTimeColon(s: string)
    requires ':' in s
    ensures ParseTime(Str(s)) == ColonTime(s)
  {
    DecimalRejectsColon(s);
  }

  /** All fields parse: the parsed list is the field-by-field parse. */
  lemma {:induction false} ParseFieldsAll(fields: seq<string>)
    requires forall i :: 0 <= i < |fields| ==> ParseDecimal(fields[i]).Some?
    ensures ParseFields(fields).Some?
  {
    if fields != [] {
      ParseFieldsAll(fields[1..]);
    }
  }

  /** Splitting a joined time code and parsing its fields gives the parsed fields back. */
  lemma ColonTimeJoin(fields: seq<string>, values: seq<real>)
    requires |fields| >= 1 && forall i :: 0 <= i < |fields| ==> ':' !in fields[i]
    requires |values| == |fields| && forall i :: 0 <= i < |fields| ==> ParseDecimal(fields[i]) == Some(values[i])
    ensures ColonTime(Join(fields, ':')) == Some(FieldsSeconds(values))
  {
    SplitJoin(fields, ':');
    ParseFieldsAll(fields);
    assert ParseFields(fields).value == values;
  }

  /** "H:M:S" is H*3600 + M*60 + S. */
  lemma ColonTimeHms(h: string, m: string, s: string, hv: real, mv: real, sv: real)
    requires ':' !in h && ':' !in m && ':' !in s
    requires ParseDecimal(h) == Some(hv) && ParseDecimal(m) == Some(mv) && ParseDecimal(s) == Some(sv)
    ensures ColonTime(Join([h, m, s], ':')) == Some(HoursMinutesSeconds(hv, mv, sv))
  {
    var fields, values := [h, m, s], [hv, mv, sv];
    assert forall i :: 0 <= i < 3 ==> ':' !in fields[i] && ParseDecimal(fields[i]) == Some(values[i]);
    ColonTimeJoin(fields, values);
  }

  /** "M:S" is M*60 + S. */
  lemma ColonTimeMs(m: string, s: string, mv: real, sv: real)
    requires ':' !in m && ':' !in s
    requires ParseDecimal(m) == Some(mv) && ParseDecimal(s) == Some(sv)
    ensures ColonTime(Join([m, s], ':')) == Some(MinutesSeconds(mv, sv))
  {
    var fields, values := [m, s], [mv, sv];
    assert forall i :: 0 <= i < 2 ==> ':' !in fields[i] && ParseDecimal(fields[i]) == Some(values[i]);
    ColonTimeJoin(fields, values);
  }

  /** Four or more fields that all parse give the first field. */
  lemma ColonTimeManyFields(fields: seq<string>)
    requires |fields| >= 4
    requires forall i :: 0 <= i < |fields| ==> ':' !in fields[i] && ParseDecimal(fields[i]).Some?
    ensures ':' in Join(fields, ':')
    ensures ColonTime(Join(fields, ':')) == ParseDecimal(fields[0])
  {
    JoinHasSeparator(fields, ':');
    SplitJoin(fields, ':');
    ParseFieldsAll(fields);
  }

  /** One field that does not parse makes the whole time code unparseable. */
  lemma ColonTimeBadField(fields: seq<string>, k: nat)
    requires |fields| >= 1 && k < |fields|
    requires forall i :: 0 <= i < |fields| ==> ':' !in fields[i]
    requires ParseDecimal(fields[k]).None?
    ensures ColonTime(Join(fields, ':')) == None
  {
    SplitJoin(fields, ':');
  }

  /** A plain number parses to itself, whichever of the two parses reads it. */
  lemma ParseTimeNumber(x: real)
    ensures ParseTime(Num(x)) == Some(x)
    ensures ToSecondsSimple(Num(x)) == Some(if x > 1000.0 then x / 1000.0 else x)
  {
  }

  /** `int()` accepts only what `float()` accepts, and gives its truncation toward zero. */
  lemma PyIntWithinPlainFloat(v: Value)
    ensures PyInt(v).Some? ==> PlainFloat(v).Some? && PyInt(v).value == Trunc(PlainFloat(v).value)
  {
    if v.Str? && ParseInteger(v.s).Some? {
      IntegerIsDecimal(v.s);
      var n := ParseInteger(v.s).value;
      assert Trunc(n as real) == n;
    }
  }

  /** `'play' in str(v).lower()`; the text of a dict or list shows its keys and its strings. */
  function MentionsPlay(v: Value): bool {
    match v
    case Str(s) => Contains(Lower(s), "play")
    case Map(es) => EntriesMentionPlay(es)
    case List(xs) => ItemsMentionPlay(xs)
    case _ => false
  }

  function EntriesMentionPlay(es: seq<Entry>): bool {
    if es == [] then false
    else Contains(Lower(es[0].key), "play") || MentionsPlay(es[0].val) || EntriesMentionPlay(es[1..])
  }

  function ItemsMentionPlay(xs: seq<Value>): bool {
    if xs == [] then false else MentionsPlay(xs[0]) || ItemsMentionPlay(xs[1..])
  }
}
