/** The UserId value object: a non-blank identifier, compared by value. */
module UserIds {
  import opened Text
  import opened Outcomes

  /**
   * A user identifier. The constructor is private in the system, so every value comes
   * from FromString or Generate and is Valid.
   */
  datatype UserId = UserId(value: string) {
    predicate Valid() {
      !IsBlank(value)
    }

    /** The identifier exactly as it was accepted, untrimmed. */
    function ToString(): string {
      value
    }

    /** Value equality on the underlying string: an equivalence, and the same as `==`. */
    function Equals(other: UserId): (same: bool)
      ensures same <==> this == other
    {
      value == other.value
    }
  }

  /** Equals is reflexive, symmetric and transitive. */
  lemma EqualsIsEquivalence(a: UserId, b: UserId, c: UserId)
    ensures a.Equals(a)
    ensures a.Equals(b) == b.Equals(a)
    ensures a.Equals(b) && b.Equals(c) ==> a.Equals(c)
  {
  }

  /** Parses an externally supplied id; blank input (empty or all whitespace) is rejected. */
  function FromString(id: string): (r: Result<UserId>)
    ensures r.Err? <==> IsBlank(id)
    ensures r.Err? ==> r.error == EmptyUserId
    ensures r.Ok? ==> r.value.Valid() && r.value.ToString() == id
  {
    if |Trim(id)| == 0 then Err(EmptyUserId) else Ok(UserId(id))
  }

  /** Parsing the text of a valid id gives that id back. */
  lemma FromStringOfToString(id: UserId)
    requires id.Valid()
    ensures FromString(id.ToString()) == Ok(id)
  {
  }

  predicate IsLowerHexDigit(c: char) {
    ('0' <= c && c <= '9') || ('a' <= c && c <= 'f')
  }

  /**
   * The canonical text of a version 4 UUID (section 3 and 4.4 of RFC 4122), as the
   * random-UUID source produces it: 36 characters, hyphens at 8, 13, 18 and 23, lower-case
   * hex digits elsewhere, the version digit `4` and a variant digit among `8`, `9`, `a`, `b`.
   */
  predicate IsUuidText(s: string) {
    && |s| == 36
    && (forall i | 0 <= i < 36 ::
          if i == 8 || i == 13 || i == 18 || i == 23 then s[i] == '-' else IsLowerHexDigit(s[i]))
    && s[14] == '4'
    && s[19] in {'8', '9', 'a', 'b'}
  }

  /**
   * A fresh identifier wrapping the text the random-UUID source returned; the randomness
   * itself is the caller's `uuid`.
   */
  function Generate(uuid: string): (id: UserId)
    requires IsUuidText(uuid)
    ensures id.Valid() && id.ToString() == uuid && |id.ToString()| == 36
  {
    assert !IsSpace(uuid[0]);
    UserId(uuid)
  }
}
