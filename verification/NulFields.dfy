/**
  Texts made of NUL-terminated fields, as git and the file finders print them.
 */
module NulFields {
  const NUL := 0 as char

  /** The NUL-terminated fields of a text; the last terminator may be missing. */
  function Fields(text: string): seq<string>
    decreases |text|
  {
    if text == "" then []
    else
      var n := FieldLength(text);
      [text[..n]] + if n < |text| then Fields(text[n + 1..]) else []
  }

  function FieldLength(text: string): (n: nat)
    ensures n <= |text| && (n < |text| ==> text[n] == NUL)
    ensures forall k :: 0 <= k < n ==> text[k] != NUL
  {
    if text == "" || text[0] == NUL then 0 else FieldLength(text[1..]) + 1
  }

  /** The text of some fields, each with its terminator. */
  function Terminated(fields: seq<string>): string {
    if fields == [] then "" else fields[0] + [NUL] + Terminated(fields[1..])
  }

  predicate NoNul(fields: seq<string>) {
    forall k :: 0 <= k < |fields| ==> NUL !in fields[k]
  }

  /** Fields without a terminator inside are read back. */
  lemma {:induction false} FieldsRoundTrip(fields: seq<string>)
    requires NoNul(fields)
    ensures Fields(Terminated(fields)) == fields
  {
    if fields != [] {
      var field, rest := fields[0], Terminated(fields[1..]);
      var text := Terminated(fields);
      assert text == field + [NUL] + rest;
      FirstFieldLength(field, rest);
      assert text[..|field|] == field && text[|field| + 1..] == rest;
      FieldsRoundTrip(fields[1..]);
      assert fields == [field] + fields[1..];
    }
  }

  lemma {:induction false} FirstFieldLength(field: string, rest: string)
    requires NUL !in field
    ensures FieldLength(field + [NUL] + rest) == |field|
  {
    var text := field + [NUL] + rest;
    if field == "" {
      assert text[0] == NUL;
    } else {
      assert text[1..] == field[1..] + [NUL] + rest;
      FirstFieldLength(field[1..], rest);
    }
  }
}
