/**
 * datetime values and their ISO 8601 text (datetime.isoformat and
 * datetime.fromisoformat), kept abstract.  A timestamp is a count of
 * microseconds; the clock (datetime.now) is a parameter wherever it is read.
 */
module Timestamps {
  import opened Wrappers

  type Timestamp = int

  datatype IsoCodec = IsoCodec(
    format: Timestamp -> string,            // isoformat()
    parse: string -> Option<Timestamp>)     // fromisoformat(); None stands for ValueError

  /** fromisoformat reads back what isoformat wrote, and isoformat never
      writes the empty string. */
  ghost predicate IsoSound(iso: IsoCodec) {
    forall t :: iso.parse(iso.format(t)) == Some(t) && iso.format(t) != []
  }

  // ---- A toy codec meeting the contract (signed unary, not ISO 8601) ----

  function ToyFormat(t: Timestamp): string {
    (if t < 0 then "-" else "+") + seq(if t < 0 then -t else t, i => '1')
  }

  function ToyParse(s: string): Option<Timestamp> {
    if s == [] || !(s[0] == '+' || s[0] == '-') then None
    else if exists i :: 1 <= i < |s| && s[i] != '1' then None
    else if s[0] == '-' then Some(-(|s| - 1)) else Some(|s| - 1)
  }

  lemma ToyCodecIsSound()
    ensures IsoSound(IsoCodec(ToyFormat, ToyParse))
  {
    forall t ensures ToyParse(ToyFormat(t)) == Some(t) {
      var s := ToyFormat(t);
      assert forall i :: 1 <= i < |s| ==> s[i] == '1';
    }
  }
}
