/**
 * The naming convention for functions and member functions: a name is
 * compliant when it is one of the iterator-protocol names, when it is an
 * operator, or when its first character is not changed by upper-casing.
 */
module NamingRule {
  import opened StdString

  /** The iterator-protocol names that range-based `for` needs lower-case. */
  const ExemptNames: set<string> := {"begin", "end", "cbegin", "cend"}

  predicate IsAsciiLower(c: char) {
    'a' <= c <= 'z'
  }

  /** `std::toupper` in the "C" locale: ASCII lower-case letters are mapped to upper case, all else is unchanged. */
  function ToUpper(c: char): char {
    if IsAsciiLower(c) then (c as int - 32) as char else c
  }

  /** `name.substr(0, 8) == "operator"`. */
  predicate HasOperatorPrefix(name: string) {
    Substr(name, 0, 8) == "operator"
  }

  /** The three rules, any one of which makes a (non-empty) name compliant. */
  predicate IsCompliant(name: string)
    requires |name| > 0
  {
    name in ExemptNames || HasOperatorPrefix(name) || name[0] == ToUpper(name[0])
  }

  /** Upper-casing leaves a character unchanged exactly when it is not an ASCII lower-case letter. */
  lemma ToUpperFixedIff(c: char)
    ensures ToUpper(c) == c <==> !IsAsciiLower(c)
    ensures IsAsciiLower(c) ==> 'A' <= ToUpper(c) <= 'Z'
  {
  }

  /** The operator rule matches exactly the names whose first eight characters are `operator`; shorter names never. */
  lemma OperatorPrefixIff(name: string)
    ensures HasOperatorPrefix(name) <==> |name| >= 8 && name[..8] == "operator"
    ensures |name| < 8 ==> !HasOperatorPrefix(name)
  {
    if |name| < 8 {
      assert |Substr(name, 0, 8)| < 8;
    }
  }

  /**
   * A name is compliant exactly when it is exempt, starts with `operator`, or
   * does not start with an ASCII lower-case letter.
   */
  lemma CompliantIff(name: string)
    requires |name| > 0
    ensures IsCompliant(name) <==>
              (name in ExemptNames
               || (|name| >= 8 && name[..8] == "operator")
               || !IsAsciiLower(name[0]))
  {
    OperatorPrefixIff(name);
    ToUpperFixedIff(name[0]);
  }

  /** The exempt names start with a lower-case letter and are compliant nonetheless. */
  lemma ExemptNamesCompliant(name: string)
    requires name in ExemptNames
    ensures |name| > 0 && IsAsciiLower(name[0]) && IsCompliant(name)
  {
  }

  /** A name that starts with a lower-case letter and matches neither exemption is not compliant. */
  lemma LowerCaseNotCompliant(name: string)
    requires |name| > 0 && IsAsciiLower(name[0])
    requires name !in ExemptNames && !(|name| >= 8 && name[..8] == "operator")
    ensures !IsCompliant(name)
  {
    CompliantIff(name);
  }

  /** The rule on concrete names. */
  lemma NamingExamples()
    ensures IsCompliant("Foo")
    ensures !IsCompliant("foo")
    ensures IsCompliant("begin") && IsCompliant("cend")
    ensures IsCompliant("operator==")
    ensures IsCompliant("_foo")
    ensures !IsCompliant("operato")
  {
    assert "operator=="[..8] == "operator";
    OperatorPrefixIff("operato");
  }
}
