/**
 * The reservation records of the booking hook: raw rows as they arrive from
 * the endpoint, the validation that drops incomplete rows, and the projection
 * onto the seven displayed fields.
 */
module Bookings {
  import opened Seqs
  import opened JsText

  /** A raw JSON record: its own keys with string values; any other key reads `undefined`. */
  type RawRow = map<string, string>

  const DateKey: string := "日付"
  const StoreKey: string := "店舗"
  const CastKey: string := "キャスト"
  const AppointmentKey: string := "指名"
  const NameKey: string := "名前"
  const PhoneKey: string := "電話番号"
  const EmailKey: string := "メール"

  /** The seven displayed keys, in the order the projection creates them. */
  const Keys: seq<string> := [DateKey, StoreKey, CastKey, AppointmentKey, NameKey, PhoneKey, EmailKey]

  /** The five keys a row must carry to be shown. */
  const RequiredKeys: seq<string> := [DateKey, StoreKey, CastKey, NameKey, PhoneKey]

  /** `row[key]`. */
  function Field(row: RawRow, key: string): (v: Value)
    ensures key in row ==> v == Text(row[key])
    ensures key !in row ==> v == Undefined
  {
    if key in row then Text(row[key]) else Undefined
  }

  /** The row validator: every required field is truthy. */
  predicate IsValid(row: RawRow)
  {
    && Truthy(Field(row, DateKey))
    && Truthy(Field(row, StoreKey))
    && Truthy(Field(row, CastKey))
    && Truthy(Field(row, NameKey))
    && Truthy(Field(row, PhoneKey))
  }

  /** A row is valid exactly when each required key is present with a non-empty string. */
  lemma IsValidIff(row: RawRow)
    ensures IsValid(row) <==> forall k :: k in RequiredKeys ==> k in row && row[k] != ""
  {
  }

  /** `validData`: the valid rows, in their input order. */
  function ValidRows(data: seq<RawRow>): (r: seq<RawRow>)
    ensures forall i :: 0 <= i < |r| ==> IsValid(r[i])
  {
    Filter(data, IsValid)
  }

  /** Validation drops exactly the invalid rows and keeps the order of the rest. */
  lemma ValidRowsSpec(data: seq<RawRow>)
    ensures IsSubsequence(ValidRows(data), data)
    ensures forall row :: row in ValidRows(data) <==> row in data && IsValid(row)
    ensures |ValidRows(data)| == |data| <==> forall i :: 0 <= i < |data| ==> IsValid(data[i])
  {
    FilterIsSubsequence(data, IsValid);
    forall row
      ensures row in ValidRows(data) <==> row in data && IsValid(row)
    {
      FilterMembership(data, IsValid, row);
    }
    FilterKeepsAllIff(data, IsValid);
  }

  /** A displayed reservation: exactly the seven projected keys. */
  datatype Booking = Booking(
    date: Value, store: Value, cast: Value, appointment: Value,
    name: Value, phone: Value, email: Value)
  {
    /** `booking[key]`: `undefined` for a key outside the seven. */
    function Get(key: string): Value
    {
      if key == DateKey then date
      else if key == StoreKey then store
      else if key == CastKey then cast
      else if key == AppointmentKey then appointment
      else if key == NameKey then name
      else if key == PhoneKey then phone
      else if key == EmailKey then email
      else Undefined
    }

    /** `Object.values(booking)`, in key creation order. */
    function Values(): (vs: seq<Value>)
      ensures |vs| == |Keys|
      ensures forall i :: 0 <= i < |Keys| ==> vs[i] == Get(Keys[i])
    {
      [date, store, cast, appointment, name, phone, email]
    }
  }

  /** The projection of one row onto the seven keys. */
  function Project(row: RawRow): (b: Booking)
    ensures forall k :: k in Keys ==> b.Get(k) == Field(row, k)
    ensures forall k :: k !in Keys ==> b.Get(k) == Undefined
  {
    Booking(Field(row, DateKey), Field(row, StoreKey), Field(row, CastKey),
            Field(row, AppointmentKey), Field(row, NameKey), Field(row, PhoneKey),
            Field(row, EmailKey))
  }

  /** The required fields of a reservation are all present and non-empty. */
  predicate IsComplete(b: Booking)
  {
    Truthy(b.date) && Truthy(b.store) && Truthy(b.cast) && Truthy(b.name) && Truthy(b.phone)
  }

  /** `filteredData` of the hook: the valid rows, each projected, one output per row. */
  function Normalize(data: seq<RawRow>): (r: seq<Booking>)
    ensures |r| == |ValidRows(data)|
    ensures forall i :: 0 <= i < |r| ==> IsComplete(r[i])
    ensures forall i, k :: 0 <= i < |r| && k in Keys ==> r[i].Get(k) == Field(ValidRows(data)[i], k)
  {
    var valid := ValidRows(data);
    seq(|valid|, i requires 0 <= i < |valid| => Project(valid[i]))
  }

  /** Every displayed reservation comes from a valid input row, field for field. */
  lemma NormalizeTrace(data: seq<RawRow>, b: Booking)
    requires b in Normalize(data)
    ensures exists row :: row in data && IsValid(row) && b == Project(row)
  {
    ValidRowsSpec(data);
    var i :| 0 <= i < |Normalize(data)| && Normalize(data)[i] == b;
    assert ValidRows(data)[i] in ValidRows(data);
  }

  /** Normalizing a concatenation normalizes each part. */
  lemma NormalizeAppend(a: seq<RawRow>, b: seq<RawRow>)
    ensures Normalize(a + b) == Normalize(a) + Normalize(b)
  {
    FilterAppend(a, b, IsValid);
  }
}
