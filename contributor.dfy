/**
 * The contributor of a contribution: a required name and an optional email,
 * built by two factories and compared by value through a hand-written
 * equality and hash.
 */
module ContributorApi {
  import opened Wrappers
  import opened JavaLang

  /**
   * The anonymous implementation returned by the factories. It captures the
   * two factory parameters and nothing else: the name, which the factory has
   * checked to be non-null, and the email exactly as given, null included.
   */
  datatype Contributor = Contributor(name: string, email: Nullable<string>)

  /** What construction can throw. */
  datatype Error = NullPointerException(message: string)

  /**
   * The argument of equals(Object): null, an object of some other type, or a
   * contributor.
   */
  datatype JavaObject = NullRef | OtherObject | ContributorObject(c: Contributor)

  /**
   * of(name, email): throws when the name is null, whatever the email;
   * otherwise a contributor holding both parameters as given.
   */
  function Of(name: Nullable<string>, email: Nullable<string>): (r: Result<Contributor, Error>)
    ensures r.Failure? <==> name.Null?
    ensures r.Failure? ==> r.error == NullPointerException("name")
    ensures r.Success? ==> r.value.name == name.value && r.value.email == email
  {
    match name
    case Null => Failure(NullPointerException("name"))
    case NonNull(n) => Success(Contributor(n, email))
  }

  /** of(name): the same as of(name, null). */
  function OfName(name: Nullable<string>): (r: Result<Contributor, Error>)
    ensures r.Failure? <==> name.Null?
    ensures r.Success? ==> r.value.name == name.value && r.value.email.Null?
  {
    Of(name, Null)
  }

  /** getName(): the captured name. */
  function GetName(c: Contributor): (r: string) {
    c.name
  }

  /** getEmail(): Optional.ofNullable of the captured email. */
  function GetEmail(c: Contributor): (r: Option<string>)
    ensures r.None? <==> c.email.Null?
    ensures r.Some? ==> c.email == NonNull(r.value)
  {
    OfNullable(c.email)
  }

  /**
   * equals(Object): false unless the argument is a contributor; then true
   * exactly when its name equals this name and either both emails are present
   * and equal or both are absent.
   */
  predicate Equals(self: Contributor, obj: JavaObject)
    ensures Equals(self, obj) ==> obj.ContributorObject?
  {
    if obj.ContributorObject? then
      var c := obj.c;
      if StringEquals(GetName(c), self.name) then
        if GetEmail(self).Some? && GetEmail(c).Some? then
          StringEquals(GetEmail(self).value, GetEmail(c).value)
        else
          GetEmail(self).None? && GetEmail(c).None?
      else
        false
    else
      false
  }

  /** hashCode(): the Java hash of the string concatenation name + email. */
  function HashCode(c: Contributor): (r: int)
    ensures IsInt32(r)
  {
    JavaHashCode(c.name + StringValueOf(c.email))
  }

  // ---------------------------------------------------------------------------
  // Construction

  /** getName() of a constructed contributor is the name passed in, unchanged. */
  lemma GetNameOf(name: string, email: Nullable<string>)
    ensures Of(NonNull(name), email).Success?
    ensures GetName(Of(NonNull(name), email).value) == name
  {
  }

  /** getEmail() is empty exactly when the email passed in was null, and holds it otherwise. */
  lemma GetEmailOf(name: string, email: Nullable<string>)
    ensures Of(NonNull(name), email).Success?
    ensures GetEmail(Of(NonNull(name), email).value).None? <==> email.Null?
    ensures email.NonNull? ==> GetEmail(Of(NonNull(name), email).value) == Some(email.value)
  {
  }

  /** of(name) fails exactly as of(name, null) does and otherwise yields a contributor without email. */
  lemma OfNameHasNoEmail(name: Nullable<string>)
    ensures OfName(name) == Of(name, Null)
    ensures OfName(name).Failure? <==> name.Null?
    ensures OfName(name).Success? ==> GetName(OfName(name).value) == name.value
    ensures OfName(name).Success? ==> GetEmail(OfName(name).value) == None
  {
  }

  /** The only check construction makes is against null: empty and blank names are accepted. */
  lemma BlankNamesAccepted()
    ensures Of(NonNull(""), Null).Success?
    ensures Of(NonNull(" "), NonNull("x")).Success?
  {
  }

  /** Whitespace as java.lang.Character.isWhitespace sees it within ASCII. */
  predicate IsWhitespace(ch: char) {
    ch == ' ' || ch == '\t' || ch == '\n' || ch == '\r' || '\U{B}' == ch || '\U{C}' == ch
      || '\U{1C}' <= ch <= '\U{1F}'
  }

  /** A name that is not entirely whitespace. */
  predicate NotBlank(s: string) {
    exists i :: 0 <= i < |s| && !IsWhitespace(s[i])
  }

  /**
   * getName() is never blank provided the caller kept the documented obligation
   * of passing a non-blank name; the factory itself does not check it.
   */
  lemma GetNameNotBlank(name: string, email: Nullable<string>)
    requires NotBlank(name)
    ensures Of(NonNull(name), email).Success?
    ensures NotBlank(GetName(Of(NonNull(name), email).value))
  {
  }

  // ---------------------------------------------------------------------------
  // Equality

  /**
   * equals holds exactly when the names are equal and the emails are both
   * present and equal, or both absent.
   */
  lemma EqualsCharacterised(a: Contributor, b: Contributor)
    ensures Equals(a, ContributorObject(b)) <==>
      && GetName(a) == GetName(b)
      && (|| (GetEmail(a).Some? && GetEmail(b).Some? && GetEmail(a).value == GetEmail(b).value)
          || (GetEmail(a).None? && GetEmail(b).None?))
  {
    StringEqualsIsEquality(b.name, a.name);
    if GetEmail(a).Some? && GetEmail(b).Some? {
      StringEqualsIsEquality(GetEmail(a).value, GetEmail(b).value);
    }
  }

  /** A contributor with an email never equals one without, whatever the names. */
  lemma PresentEmailNeverEqualsAbsent(a: Contributor, b: Contributor)
    requires GetEmail(a).Some? && GetEmail(b).None?
    ensures !Equals(a, ContributorObject(b)) && !Equals(b, ContributorObject(a))
  {
  }

  /** equals against null or against an object that is not a contributor is false. */
  lemma EqualsNonContributorIsFalse(a: Contributor, obj: JavaObject)
    requires !obj.ContributorObject?
    ensures !Equals(a, obj)
  {
  }

  /** equals coincides with equality of the (name, email) values. */
  lemma EqualsIsValueEquality(a: Contributor, b: Contributor)
    ensures Equals(a, ContributorObject(b)) <==> a == b
  {
    EqualsCharacterised(a, b);
  }

  /** equals is reflexive. */
  lemma EqualsReflexive(a: Contributor)
    ensures Equals(a, ContributorObject(a))
  {
    EqualsIsValueEquality(a, a);
  }

  /** equals is symmetric. */
  lemma EqualsSymmetric(a: Contributor, b: Contributor)
    ensures Equals(a, ContributorObject(b)) <==> Equals(b, ContributorObject(a))
  {
    EqualsIsValueEquality(a, b);
    EqualsIsValueEquality(b, a);
  }

  /** equals is transitive. */
  lemma EqualsTransitive(a: Contributor, b: Contributor, c: Contributor)
    requires Equals(a, ContributorObject(b)) && Equals(b, ContributorObject(c))
    ensures Equals(a, ContributorObject(c))
  {
    EqualsIsValueEquality(a, b);
    EqualsIsValueEquality(b, c);
    EqualsIsValueEquality(a, c);
  }

  /** Contributors built from equal arguments are equal, and names are compared case-sensitively. */
  lemma EqualsExamples()
    ensures Equals(Of(NonNull("A"), NonNull("x")).value, ContributorObject(Of(NonNull("A"), NonNull("x")).value))
    ensures Equals(OfName(NonNull("A")).value, ContributorObject(OfName(NonNull("A")).value))
    ensures !Equals(Of(NonNull("A"), NonNull("x")).value, ContributorObject(OfName(NonNull("A")).value))
    ensures !Equals(OfName(NonNull("A")).value, ContributorObject(OfName(NonNull("a")).value))
  {
    EqualsReflexive(Contributor("A", NonNull("x")));
    EqualsReflexive(Contributor("A", Null));
    EqualsIsValueEquality(Contributor("A", Null), Contributor("a", Null));
  }

  // ---------------------------------------------------------------------------
  // Hashing

  /** Equal contributors have equal hash codes. */
  lemma HashConsistentWithEquals(a: Contributor, b: Contributor)
    requires Equals(a, ContributorObject(b))
    ensures HashCode(a) == HashCode(b)
  {
    EqualsIsValueEquality(a, b);
  }

  /**
   * The hash is String.hashCode's polynomial, reduced to an `int`, over the
   * code units of the name followed by those of the email or of "null".
   */
  lemma HashCodeIsPolynomial(c: Contributor)
    ensures HashCode(c) == ToInt32(Polynomial(Utf16(c.name) + Utf16(StringValueOf(c.email))))
  {
    Utf16Append(c.name, StringValueOf(c.email));
    StringHashIsPolynomial(Utf16(c.name + StringValueOf(c.email)));
  }

  /** The hash does not tell contributors apart: no email and the email "null" collide. */
  lemma HashNotInjective()
    ensures HashCode(OfName(NonNull("A")).value) == HashCode(Of(NonNull("A"), NonNull("null")).value)
    ensures !Equals(OfName(NonNull("A")).value, ContributorObject(Of(NonNull("A"), NonNull("null")).value))
  {
  }
}
