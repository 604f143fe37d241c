/**
 * The Email value object. Its acceptance pattern and normal form belong to a file that is
 * not part of this model, so they are held abstract as EmailRules.
 */
module Emails {
  import opened Outcomes

  /**
   * Which raw strings the Email value object accepts (`valid`) and the normal form it
   * stores for each (`normalForms`; a string the table does not list is its own normal form).
   */
  datatype EmailRules = EmailRules(valid: iset<string>, normalForms: imap<string, string>) {
    predicate Accepts(raw: string) {
      raw in valid
    }

    function Normalize(raw: string): string {
      if raw in normalForms then normalForms[raw] else raw
    }

    /** A stored form: accepted, and its own normal form. */
    predicate IsNormalForm(v: string) {
      Accepts(v) && Normalize(v) == v
    }

    /**
     * Normalising an accepted string gives a stored form; without this, reading back a
     * stored email would fail validation.
     */
    ghost predicate Lawful() {
      forall raw {:trigger IsNormalForm(Normalize(raw))} :: Accepts(raw) ==> IsNormalForm(Normalize(raw))
    }
  }

  /** An email address in normal form. */
  datatype Email = Email(value: string) {
    function ToString(): string {
      value
    }

    predicate ValidUnder(rules: EmailRules) {
      rules.IsNormalForm(value)
    }
  }

  /** Validates `raw` and stores its normal form. */
  function Create(rules: EmailRules, raw: string): (r: Result<Email>)
    ensures r.Ok? <==> rules.Accepts(raw)
    ensures r.Err? ==> r.error == InvalidEmail
    ensures r.Ok? ==> r.value.ToString() == rules.Normalize(raw)
    ensures r.Ok? && rules.Lawful() ==> r.value.ValidUnder(rules)
  {
    if rules.Accepts(raw) then Ok(Email(rules.Normalize(raw))) else Err(InvalidEmail)
  }

  /** Re-creating an email from its stored text gives the same email. */
  lemma CreateOfStored(rules: EmailRules, e: Email)
    requires e.ValidUnder(rules)
    ensures Create(rules, e.ToString()) == Ok(e)
  {
  }
}
