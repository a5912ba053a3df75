/** The URL-encoded body of a form submission, as `URLSearchParams`
    presents it: name/value entries in order, a name possibly repeated. */
module FormParameters {
  import opened JsValues

  type Form = seq<(string, string)>

  /** Whether some entry has the given name (`URLSearchParams.has`). */
  function Has(form: Form, name: string): (present: bool)
    ensures present <==> exists entry :: entry in form && entry.0 == name
  {
    exists i :: 0 <= i < |form| && form[i].0 == name
  }

  /** The value of the first entry with the given name, or `null`
      (`URLSearchParams.get`). */
  function Get(form: Form, name: string): (r: Js<string>)
    ensures r != Undefined
  {
    if form == [] then Null
    else if form[0].0 == name then Val(form[0].1)
    else Get(form[1..], name)
  }

  /** `get` yields a value exactly when `has` reports the name. */
  lemma {:induction false} GetDefinedIffHas(form: Form, name: string)
    ensures Get(form, name).Val? <==> Has(form, name)
  {
    if form != [] && form[0].0 != name {
      GetDefinedIffHas(form[1..], name);
      assert Has(form[1..], name) ==> Has(form, name) by {
        if Has(form[1..], name) {
          var i :| 0 <= i < |form[1..]| && form[1..][i].0 == name;
          assert form[i + 1].0 == name;
        }
      }
      assert Has(form, name) ==> Has(form[1..], name) by {
        if Has(form, name) {
          var i :| 0 <= i < |form| && form[i].0 == name;
          assert i > 0 && form[1..][i - 1].0 == name;
        }
      }
    } else if form != [] {
      assert form[0].0 == name;
    }
  }

  /** What `get` yields is the value of the first entry with that name. */
  lemma {:induction false} GetIsFirstEntry(form: Form, name: string)
    requires Get(form, name).Val?
    ensures exists i :: 0 <= i < |form| && form[i] == (name, Get(form, name).value) &&
                        (forall j :: 0 <= j < i ==> form[j].0 != name)
  {
    if form[0].0 == name {
      assert form[0] == (name, Get(form, name).value);
    } else {
      GetIsFirstEntry(form[1..], name);
      var i :| 0 <= i < |form[1..]| && form[1..][i] == (name, Get(form[1..], name).value) &&
               (forall j :: 0 <= j < i ==> form[1..][j].0 != name);
      assert form[i + 1] == (name, Get(form, name).value);
      forall j | 0 <= j < i + 1 ensures form[j].0 != name {
        if j > 0 { assert form[j] == form[1..][j - 1]; }
      }
    }
  }

  /** Whether a name is present does not depend on the values of the
      entries, only on their names. */
  lemma HasIgnoresValues(form: Form, other: Form, name: string)
    requires |form| == |other|
    requires forall i :: 0 <= i < |form| ==> form[i].0 == other[i].0
    ensures Has(form, name) <==> Has(other, name)
  {
  }
}
