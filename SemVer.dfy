/**
 * Semantic versions and their precedence, as in section 11 of Semantic Versioning 2.0.0:
 * the numeric triple first, then the pre-release identifiers; build metadata never takes part.
 */
module SemVer {

  /** One dot-separated pre-release identifier (section 9 of Semantic Versioning 2.0.0). */
  datatype Identifier = Numeric(n: nat) | AlphaNumeric(s: string)

  /** A version; an empty `pre` means "no pre-release", `build` is opaque metadata. */
  datatype Version = Version(major: nat, minor: nat, patch: nat, pre: seq<Identifier>, build: string)

  /** `semver::Version::new`: a plain release, without pre-release or build metadata. */
  function New(major: nat, minor: nat, patch: nat): Version {
    Version(major, minor, patch, [], "")
  }

  datatype Ordering = Lt | Eq | Gt {
    function Flip(): Ordering {
      match this
      case Lt => Gt
      case Eq => Eq
      case Gt => Lt
    }
  }

  function CompareInt(a: int, b: int): Ordering {
    if a < b then Lt else if a == b then Eq else Gt
  }

  /** Lexical comparison in character-code order; a proper prefix comes first. */
  function CompareString(a: string, b: string): Ordering {
    if a == [] then (if b == [] then Eq else Lt)
    else if b == [] then Gt
    else if a[0] != b[0] then CompareInt(a[0] as int, b[0] as int)
    else CompareString(a[1..], b[1..])
  }

  /** Numeric identifiers compare numerically and always precede alphanumeric ones. */
  function CompareIdentifier(a: Identifier, b: Identifier): Ordering {
    match (a, b)
    case (Numeric(x), Numeric(y)) => CompareInt(x, y)
    case (Numeric(_), AlphaNumeric(_)) => Lt
    case (AlphaNumeric(_), Numeric(_)) => Gt
    case (AlphaNumeric(x), AlphaNumeric(y)) => CompareString(x, y)
  }

  /** Identifier by identifier; when one list is a prefix of the other, the longer one is greater. */
  function CompareIdentifiers(a: seq<Identifier>, b: seq<Identifier>): Ordering {
    if a == [] then (if b == [] then Eq else Lt)
    else if b == [] then Gt
    else
      var head := CompareIdentifier(a[0], b[0]);
      if head != Eq then head else CompareIdentifiers(a[1..], b[1..])
  }

  /** A version without pre-release has higher precedence than one with. */
  function ComparePre(a: seq<Identifier>, b: seq<Identifier>): Ordering {
    if a == [] && b == [] then Eq
    else if a == [] then Gt
    else if b == [] then Lt
    else CompareIdentifiers(a, b)
  }

  /** Lexicographic comparison of (major, minor, patch). */
  function CompareTriple(a: Version, b: Version): Ordering {
    if a.major != b.major then CompareInt(a.major, b.major)
    else if a.minor != b.minor then CompareInt(a.minor, b.minor)
    else CompareInt(a.patch, b.patch)
  }

  /** Precedence of two versions. */
  function Compare(a: Version, b: Version): Ordering {
    var t := CompareTriple(a, b);
    if t != Eq then t else ComparePre(a.pre, b.pre)
  }

  /** `a > b` under precedence. */
  predicate GreaterThan(a: Version, b: Version) {
    Compare(a, b) == Gt
  }

  predicate SameTriple(a: Version, b: Version) {
    a.major == b.major && a.minor == b.minor && a.patch == b.patch
  }

  // ---------------------------------------------------------------------------
  // Precedence is a total preorder: antisymmetric, equal exactly on the compared
  // fields, and transitive.

  lemma {:induction false} StringFlip(a: string, b: string)
    ensures CompareString(b, a) == CompareString(a, b).Flip()
  {
    if a != [] && b != [] && a[0] == b[0] {
      StringFlip(a[1..], b[1..]);
    }
  }

  lemma {:induction false} StringEq(a: string, b: string)
    ensures CompareString(a, b) == Eq <==> a == b
  {
    if a != [] && b != [] && a[0] == b[0] {
      StringEq(a[1..], b[1..]);
      assert a == [a[0]] + a[1..] && b == [b[0]] + b[1..];
    }
  }

  lemma {:induction false} StringTrans(a: string, b: string, c: string)
    requires CompareString(a, b) == Lt && CompareString(b, c) == Lt
    ensures CompareString(a, c) == Lt
  {
    if a != [] && a[0] == b[0] && b[0] == c[0] {
      StringTrans(a[1..], b[1..], c[1..]);
    }
  }

  lemma IdentifierFlip(a: Identifier, b: Identifier)
    ensures CompareIdentifier(b, a) == CompareIdentifier(a, b).Flip()
  {
    if a.AlphaNumeric? && b.AlphaNumeric? {
      StringFlip(a.s, b.s);
    }
  }

  lemma IdentifierEq(a: Identifier, b: Identifier)
    ensures CompareIdentifier(a, b) == Eq <==> a == b
  {
    if a.AlphaNumeric? && b.AlphaNumeric? {
      StringEq(a.s, b.s);
    }
  }

  lemma IdentifierTrans(a: Identifier, b: Identifier, c: Identifier)
    requires CompareIdentifier(a, b) == Lt && CompareIdentifier(b, c) == Lt
    ensures CompareIdentifier(a, c) == Lt
  {
    if a.AlphaNumeric? && b.AlphaNumeric? && c.AlphaNumeric? {
      StringTrans(a.s, b.s, c.s);
    }
  }

  lemma {:induction false} IdentifiersFlip(a: seq<Identifier>, b: seq<Identifier>)
    ensures CompareIdentifiers(b, a) == CompareIdentifiers(a, b).Flip()
  {
    if a != [] && b != [] {
      IdentifierFlip(a[0], b[0]);
      IdentifiersFlip(a[1..], b[1..]);
    }
  }

  lemma {:induction false} IdentifiersEq(a: seq<Identifier>, b: seq<Identifier>)
    ensures CompareIdentifiers(a, b) == Eq <==> a == b
  {
    if a != [] && b != [] {
      IdentifierEq(a[0], b[0]);
      IdentifiersEq(a[1..], b[1..]);
      assert a == [a[0]] + a[1..] && b == [b[0]] + b[1..];
    }
  }

  lemma {:induction false} IdentifiersTrans(a: seq<Identifier>, b: seq<Identifier>, c: seq<Identifier>)
    requires CompareIdentifiers(a, b) == Lt && CompareIdentifiers(b, c) == Lt
    ensures CompareIdentifiers(a, c) == Lt
  {
    if a != [] {
      IdentifierEq(a[0], b[0]);
      IdentifierEq(b[0], c[0]);
      if CompareIdentifier(a[0], b[0]) == Eq && CompareIdentifier(b[0], c[0]) == Eq {
        IdentifiersTrans(a[1..], b[1..], c[1..]);
      } else if CompareIdentifier(a[0], b[0]) == Lt && CompareIdentifier(b[0], c[0]) == Lt {
        IdentifierTrans(a[0], b[0], c[0]);
      }
    }
  }

  /** Swapping the arguments flips the outcome. */
  lemma CompareFlip(a: Version, b: Version)
    ensures Compare(b, a) == Compare(a, b).Flip()
  {
    if a.pre != [] && b.pre != [] {
      IdentifiersFlip(a.pre, b.pre);
    }
  }

  /** Two versions tie exactly when they agree on everything but build metadata. */
  lemma CompareEq(a: Version, b: Version)
    ensures Compare(a, b) == Eq <==> SameTriple(a, b) && a.pre == b.pre
  {
    if a.pre != [] && b.pre != [] {
      IdentifiersEq(a.pre, b.pre);
    }
  }

  lemma CompareTrans(a: Version, b: Version, c: Version)
    requires Compare(a, b) == Lt && Compare(b, c) == Lt
    ensures Compare(a, c) == Lt
  {
    if SameTriple(a, b) && SameTriple(b, c) && a.pre != [] && b.pre != [] && c.pre != [] {
      IdentifiersTrans(a.pre, b.pre, c.pre);
    }
  }
}
