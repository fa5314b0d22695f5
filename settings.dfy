/**
 * The settings collector: from the submitted form fields it builds one
 * record per hour of the day, hour 0 first. A field missing from the form
 * takes a fixed default; the two numeric fields are parsed by a number
 * parser given as a parameter, whose failure ends the collection.
 */
module Settings {
  import opened Wrappers

  /** The number of hourly records collected. */
  const HOURS: nat := 24

  const DEFAULT_BASAL_RATE: real := 0.0
  const DEFAULT_CORRECTION_FACTOR: string := "1:3.0"
  const DEFAULT_CARB_RATIO: string := "1:10"
  const DEFAULT_TARGET_BG: real := 5.6

  /** One hour of pump settings. */
  datatype HourlySetting = HourlySetting(
    timeRange: string,
    basalRate: real,
    correctionFactor: string,
    carbRatio: string,
    targetBg: real)

  /** A form value the number parser rejected, with the key it came from. */
  datatype SettingError = InvalidSettingValue(key: string, text: string)

  /** The character of a decimal digit. */
  function DigitChar(d: nat): (c: char)
    requires d < 10
    ensures '0' <= c <= '9'
  {
    ('0' as int + d) as char
  }

  /** The value of a decimal digit character. */
  function DigitValue(c: char): nat
    requires '0' <= c <= '9'
  {
    c as int - '0' as int
  }

  predicate AllDigits(s: string)
  {
    forall i :: 0 <= i < |s| ==> '0' <= s[i] <= '9'
  }

  /** The decimal text of `n`, as `str(n)` writes it. */
  function NatToString(n: nat): (s: string)
    ensures 0 < |s| && AllDigits(s)
    ensures (n < 10) == (|s| == 1)
    ensures n >= 10 ==> s[0] != '0'
    decreases n
  {
    if n < 10 then [DigitChar(n)] else NatToString(n / 10) + [DigitChar(n % 10)]
  }

  /** The number a string of decimal digits denotes. */
  function StringToNat(s: string): nat
    requires AllDigits(s)
    decreases |s|
  {
    if s == [] then 0 else StringToNat(s[..|s| - 1]) * 10 + DigitValue(s[|s| - 1])
  }

  /** Reading back the decimal text of `n` gives `n`. */
  lemma {:induction false} NatToStringRoundTrip(n: nat)
    ensures StringToNat(NatToString(n)) == n
    decreases n
  {
    if n >= 10 {
      NatToStringRoundTrip(n / 10);
      var s := NatToString(n);
      assert s[..|s| - 1] == NatToString(n / 10);
    }
  }

  /** `f"{i:02d}:00"`: the hour, zero-padded to two digits, then ":00". */
  function TimeRange(i: nat): string
  {
    var digits := NatToString(i);
    (if |digits| < 2 then "0" + digits else digits) + ":00"
  }

  /**
   * For every hour of the day the time range is five characters: two digits
   * that read back as the hour, then ":00".
   */
  lemma TimeRangeFormat(i: nat)
    requires i < HOURS
    ensures |TimeRange(i)| == 5
    ensures TimeRange(i)[2..] == ":00"
    ensures AllDigits(TimeRange(i)[..2]) && StringToNat(TimeRange(i)[..2]) == i
  {
    NatToStringRoundTrip(i);
    var digits := NatToString(i);
    if i < 10 {
      assert TimeRange(i)[..2] == ['0', digits[0]];
      assert StringToNat(['0']) == 0;
      assert ['0', digits[0]][..1] == ['0'];
    } else {
      assert TimeRange(i)[..2] == digits;
    }
  }

  /** Different hours get different time ranges. */
  lemma TimeRangeInjective(i: nat, j: nat)
    requires i < HOURS && j < HOURS && TimeRange(i) == TimeRange(j)
    ensures i == j
  {
    TimeRangeFormat(i);
    TimeRangeFormat(j);
  }

  /** The form key of a field for hour `i`, `f"{field}_{i}"`. */
  function FieldKey(field: string, i: nat): string
  {
    field + "_" + NatToString(i)
  }

  /** Each hour reads its own form key: different hours never share one. */
  lemma FieldKeyInjective(field: string, i: nat, j: nat)
    requires FieldKey(field, i) == FieldKey(field, j)
    ensures i == j
  {
    var pre := |field| + 1;
    assert NatToString(i) == FieldKey(field, i)[pre..];
    assert NatToString(j) == FieldKey(field, j)[pre..];
    NatToStringRoundTrip(i);
    NatToStringRoundTrip(j);
  }

  /** `form.get(key, default)` for a text field. */
  function TextField(form: map<string, string>, key: string, default: string): string
  {
    if key in form then form[key] else default
  }

  /**
   * `float(form.get(key, default))`: the default is a number and is taken
   * as it is; a form value goes through the parser and fails when the
   * parser rejects it.
   */
  function NumberField(form: map<string, string>, key: string, default: real, parse: string -> Option<real>): Result<real, SettingError>
  {
    if key !in form then Success(default)
    else
      match parse(form[key])
      case Some(x) => Success(x)
      case None => Failure(InvalidSettingValue(key, form[key]))
  }

  /**
   * The record for hour `i`, or the error of its first rejected number:
   * the basal rate is parsed before the target.
   */
  function HourRecord(form: map<string, string>, parse: string -> Option<real>, i: nat): Result<HourlySetting, SettingError>
  {
    var basal := NumberField(form, FieldKey("basal_rate", i), DEFAULT_BASAL_RATE, parse);
    var correction := TextField(form, FieldKey("correction_factor", i), DEFAULT_CORRECTION_FACTOR);
    var carb := TextField(form, FieldKey("carb_ratio", i), DEFAULT_CARB_RATIO);
    var target := NumberField(form, FieldKey("target_bg", i), DEFAULT_TARGET_BG, parse);
    if basal.Failure? then Failure(basal.error)
    else if target.Failure? then Failure(target.error)
    else Success(HourlySetting(TimeRange(i), basal.value, correction, carb, target.value))
  }

  /** `settings` is the full collection: one record per hour, hour 0 first. */
  ghost predicate Collected(form: map<string, string>, parse: string -> Option<real>, settings: seq<HourlySetting>)
  {
    |settings| == HOURS &&
    forall h :: 0 <= h < HOURS ==> HourRecord(form, parse, h) == Success(settings[h])
  }

  /** Hour `h` fails with `error` and every earlier hour succeeds. */
  ghost predicate FirstFailure(form: map<string, string>, parse: string -> Option<real>, h: nat, error: SettingError)
  {
    HourRecord(form, parse, h) == Failure(error) &&
    forall g :: 0 <= g < h ==> HourRecord(form, parse, g).Success?
  }

  /**
   * The loop of the request handler that collects the settings. On success
   * there are exactly 24 records, record `h` is that of hour `h`, and a text
   * field missing from the form takes its default while a present one is
   * kept as submitted. On failure the error is that of the first hour whose
   * number the parser rejected.
   */
  method CollectSettings(form: map<string, string>, parse: string -> Option<real>)
    returns (res: Result<seq<HourlySetting>, SettingError>)
    ensures res.Success? ==> Collected(form, parse, res.value)
    ensures res.Success? ==> forall h :: 0 <= h < HOURS ==>
      && res.value[h].timeRange == TimeRange(h)
      && res.value[h].correctionFactor ==
           (if FieldKey("correction_factor", h) in form then form[FieldKey("correction_factor", h)] else DEFAULT_CORRECTION_FACTOR)
      && res.value[h].carbRatio ==
           (if FieldKey("carb_ratio", h) in form then form[FieldKey("carb_ratio", h)] else DEFAULT_CARB_RATIO)
      && (FieldKey("basal_rate", h) !in form ==> res.value[h].basalRate == DEFAULT_BASAL_RATE)
      && (FieldKey("target_bg", h) !in form ==> res.value[h].targetBg == DEFAULT_TARGET_BG)
    ensures res.Failure? ==> exists h :: 0 <= h < HOURS && FirstFailure(form, parse, h, res.error)
  {
    var settings: seq<HourlySetting> := [];
    var i := 0;
    while i < HOURS
      invariant 0 <= i <= HOURS
      invariant |settings| == i
      invariant forall h :: 0 <= h < i ==> HourRecord(form, parse, h) == Success(settings[h])
    {
      var basalKey := FieldKey("basal_rate", i);
      var basalRate := DEFAULT_BASAL_RATE;
      if basalKey in form {
        var parsed := parse(form[basalKey]);
        if parsed.None? {
          res := Failure(InvalidSettingValue(basalKey, form[basalKey]));
          assert FirstFailure(form, parse, i, res.error);
          return;
        }
        basalRate := parsed.value;
      }
      var correctionKey := FieldKey("correction_factor", i);
      var correctionFactor := if correctionKey in form then form[correctionKey] else DEFAULT_CORRECTION_FACTOR;
      var carbKey := FieldKey("carb_ratio", i);
      var carbRatio := if carbKey in form then form[carbKey] else DEFAULT_CARB_RATIO;
      var targetKey := FieldKey("target_bg", i);
      var targetBg := DEFAULT_TARGET_BG;
      if targetKey in form {
        var parsed := parse(form[targetKey]);
        if parsed.None? {
          res := Failure(InvalidSettingValue(targetKey, form[targetKey]));
          assert FirstFailure(form, parse, i, res.error);
          return;
        }
        targetBg := parsed.value;
      }
      settings := settings + [HourlySetting(TimeRange(i), basalRate, correctionFactor, carbRatio, targetBg)];
      i := i + 1;
    }
    res := Success(settings);
  }

  /**
   * A full collection lists the hours in ascending order: the two digits
   * of record `h`'s time range read back as `h`, so record `g` comes
   * before record `h` exactly when its hour is smaller.
   */
  lemma CollectedInHourOrder(form: map<string, string>, parse: string -> Option<real>, settings: seq<HourlySetting>)
    requires Collected(form, parse, settings)
    ensures forall h :: 0 <= h < HOURS ==>
      |settings[h].timeRange| == 5 && settings[h].timeRange[2..] == ":00" &&
      AllDigits(settings[h].timeRange[..2]) && StringToNat(settings[h].timeRange[..2]) == h
  {
    forall h | 0 <= h < HOURS
      ensures |settings[h].timeRange| == 5 && settings[h].timeRange[2..] == ":00" &&
        AllDigits(settings[h].timeRange[..2]) && StringToNat(settings[h].timeRange[..2]) == h
    {
      assert HourRecord(form, parse, h) == Success(settings[h]);
      TimeRangeFormat(h);
    }
  }
}
