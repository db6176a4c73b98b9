/** The document-type registry: the closed enumeration of labels, the string
    value of each member, the lookup from a value back to its member, and the
    integer label of each member in declaration order. */
module DocumentTypes {
  import opened Wrappers

  datatype DocumentType = Unknown | DriversLicense | BankStatement | Invoice

  /** The members in declaration order, as iterating the enumeration gives them. */
  const Members: seq<DocumentType> := [Unknown, DriversLicense, BankStatement, Invoice]

  /** `member.value`. */
  function Value(t: DocumentType): string {
    match t
    case Unknown => "other"
    case DriversLicense => "drivers_license"
    case BankStatement => "bank_statement"
    case Invoice => "invoice"
  }

  /** `DocumentType(s)`: the member whose value is `s`, or `None` where the
      enumeration raises `ValueError`. */
  function FromValue(s: string): (r: Option<DocumentType>)
    ensures r.Some? ==> Value(r.value) == s
    ensures r.None? <==> forall t: DocumentType :: Value(t) != s
  {
    if s == "other" then Some(Unknown)
    else if s == "drivers_license" then Some(DriversLicense)
    else if s == "bank_statement" then Some(BankStatement)
    else if s == "invoice" then Some(Invoice)
    else None
  }

  /** The position of `t` in `s`, counting from `from`: the index `enumerate` pairs it with. */
  function PositionIn(s: seq<DocumentType>, t: DocumentType, from: nat): nat
    decreases |s|
  {
    if s == [] || s[0] == t then from else PositionIn(s[1..], t, from + 1)
  }

  /** `DOCUMENT_TO_INT_LABEL`: each member mapped to the index `enumerate` gives it. */
  const DocumentToIntLabel: map<DocumentType, nat> :=
    map t | t in Members :: PositionIn(Members, t, 0)

  /** The enumeration has exactly four members, each listed once. */
  lemma MembersEnumerateAll()
    ensures |Members| == 4
    ensures forall t: DocumentType :: t in Members
    ensures forall i, j :: 0 <= i < j < |Members| ==> Members[i] != Members[j]
  {
    forall t: DocumentType ensures t in Members {
      match t
      case Unknown => assert Members[0] == t;
      case DriversLicense => assert Members[1] == t;
      case BankStatement => assert Members[2] == t;
      case Invoice => assert Members[3] == t;
    }
  }

  /** The values are pairwise distinct, so `.value` is injective. */
  lemma ValueInjective(a: DocumentType, b: DocumentType)
    ensures Value(a) == Value(b) ==> a == b
  {
  }

  /** Looking a member up by its own value gives the member back. */
  lemma FromValueInvertsValue(t: DocumentType)
    ensures FromValue(Value(t)) == Some(t)
  {
  }

  /** The fallback member's value is "other": the label "unknown" names no member. */
  lemma UnknownLabelHasNoMember()
    ensures Value(Unknown) == "other"
    ensures FromValue("unknown") == None
  {
  }

  /** `DOCUMENT_TO_INT_LABEL` numbers the members 0 to 3 in declaration order,
      UNKNOWN first. */
  lemma IntLabelValues()
    ensures Unknown in DocumentToIntLabel && DocumentToIntLabel[Unknown] == 0
    ensures DriversLicense in DocumentToIntLabel && DocumentToIntLabel[DriversLicense] == 1
    ensures BankStatement in DocumentToIntLabel && DocumentToIntLabel[BankStatement] == 2
    ensures Invoice in DocumentToIntLabel && DocumentToIntLabel[Invoice] == 3
  {
    assert Members[0] == Unknown && Members[1] == DriversLicense;
    assert Members[2] == BankStatement && Members[3] == Invoice;
  }

  /** `DOCUMENT_TO_INT_LABEL` is total, gives each member its own index in the
      enumeration, and gives distinct members distinct labels. */
  lemma IntLabelIsDeclarationIndex()
    ensures forall t: DocumentType :: t in DocumentToIntLabel
    ensures forall t: DocumentType :: DocumentToIntLabel[t] < |Members| && Members[DocumentToIntLabel[t]] == t
    ensures forall a: DocumentType, b: DocumentType :: DocumentToIntLabel[a] == DocumentToIntLabel[b] ==> a == b
  {
    IntLabelValues();
    MembersEnumerateAll();
    forall t: DocumentType
      ensures t in DocumentToIntLabel
      ensures DocumentToIntLabel[t] < |Members| && Members[DocumentToIntLabel[t]] == t
    {
    }
  }
}
