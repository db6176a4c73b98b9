/** The filename heuristic: a document's type is guessed from marker substrings
    in its lower-cased path, with no I/O. */
module FilenameClassifier {
  import opened Paths
  import opened DocumentTypes

  /** The type a path's lower-cased string names, stated as a priority: "invoice"
      beats "bank_statement", which beats "drivers_license"; no marker means UNKNOWN. */
  function Verdict(file: Path): DocumentType {
    var filename := Lower(file);
    if Contains(filename, "invoice") then Invoice
    else if Contains(filename, "bank_statement") then BankStatement
    else if Contains(filename, "drivers_license") then DriversLicense
    else Unknown
  }

  /** One file's class as the loop body computes it: start from UNKNOWN and let
      each of the three marker tests, in turn, overwrite the result. */
  method ResultClass(file: Path) returns (resultClass: DocumentType)
    ensures resultClass == Verdict(file)
  {
    var filename := Lower(file);
    resultClass := Unknown;
    if Contains(filename, "drivers_license") {
      resultClass := DriversLicense;
    }
    if Contains(filename, "bank_statement") {
      resultClass := BankStatement;
    }
    if Contains(filename, "invoice") {
      resultClass := Invoice;
    }
  }

  /** `FilenameClassifier.classify`: one entry per distinct input path, each
      holding that path's own verdict. */
  method Classify(files: seq<Path>) returns (outputPerFile: map<Path, DocumentType>)
    ensures outputPerFile.Keys == set f | f in files
    ensures forall f :: f in outputPerFile ==> outputPerFile[f] == Verdict(f)
  {
    outputPerFile := map[];
    for i := 0 to |files|
      invariant outputPerFile.Keys == set f | f in files[..i]
      invariant forall f :: f in outputPerFile ==> outputPerFile[f] == Verdict(f)
    {
      var resultClass := ResultClass(files[i]);
      outputPerFile := outputPerFile[files[i] := resultClass];
      assert files[..i + 1] == files[..i] + [files[i]];
    }
    assert files[..|files|] == files;
  }

  /** A path with none of the three markers, in any case, is UNKNOWN. */
  lemma NoMarkerIsUnknown(file: Path)
    requires !Contains(Lower(file), "drivers_license")
    requires !Contains(Lower(file), "bank_statement")
    requires !Contains(Lower(file), "invoice")
    ensures Verdict(file) == Unknown
  {
  }

  /** A path containing "invoice" is an INVOICE, whatever else it contains. */
  lemma InvoiceWins(file: Path)
    requires Contains(Lower(file), "invoice")
    ensures Verdict(file) == Invoice
  {
  }

  /** "bank_statement" without "invoice" gives BANK_STATEMENT. */
  lemma BankStatementUnlessInvoice(file: Path)
    requires Contains(Lower(file), "bank_statement") && !Contains(Lower(file), "invoice")
    ensures Verdict(file) == BankStatement
  {
  }

  /** "drivers_license" alone gives DRIVERS_LICENSE. */
  lemma DriversLicenseAlone(file: Path)
    requires Contains(Lower(file), "drivers_license")
    requires !Contains(Lower(file), "bank_statement") && !Contains(Lower(file), "invoice")
    ensures Verdict(file) == DriversLicense
  {
  }

  /** The verdict does not depend on letter case. */
  lemma VerdictIgnoresCase(file: Path)
    ensures Verdict(Lower(file)) == Verdict(file)
  {
    LowerIdempotent(file);
  }

  /** Directory components count too: a marker anywhere in the path decides. */
  lemma DirectoryMarkerCounts(dir: Path, name: Path)
    requires Contains(Lower(dir), "invoice")
    ensures Verdict(dir + "/" + name) == Invoice
  {
    var i :| 0 <= i <= |Lower(dir)| - 7 && OccursAt(Lower(dir), "invoice", i);
    var whole := Lower(dir + "/" + name);
    assert whole[i..i + 7] == Lower(dir)[i..i + 7];
    assert OccursAt(whole, "invoice", i);
  }

  /** A name carrying both "invoice" and "bank_statement" is an INVOICE: the
      "invoice" test runs last, so it overwrites the other. */
  lemma MixedMarkersExample()
    ensures Verdict("invoice_bank_statement.pdf") == Invoice
  {
    var s := "invoice_bank_statement.pdf";
    assert Lower(s)[0..7] == "invoice";
    assert OccursAt(Lower(s), "invoice", 0);
  }
}
