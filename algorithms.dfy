/**
 * The names of the three algorithms (src/algorithms/mod.rs:17-64): `Alg`, its `Display`
 * text, the `FromStr` parser and the text of `ParseAlgError`.
 *
 * The parser upper-cases its input and compares it with a fixed list of spellings per
 * algorithm. Upper-casing is modelled on ASCII letters only.
 */
module Algorithms {

  datatype Alg = TrialDivision | BrentsRho | Fermat

  datatype ParseAlgError = UnknownAlg(name: string)

  datatype Result<T, E> = Ok(value: T) | Err(error: E)

  /** `Display for Alg` (src/algorithms/mod.rs:24-36). */
  function Display(alg: Alg): string {
    match alg
    case TrialDivision => "trial division"
    case BrentsRho => "Brent's Rho"
    case Fermat => "Fermat"
  }

  /** `Display for ParseAlgError` (src/algorithms/mod.rs:45-51). */
  function ErrorText(e: ParseAlgError): (text: string)
    ensures text == "unknown algorithm '" + e.name + "'"
    ensures text[19..|text| - 1] == e.name
  {
    match e
    case UnknownAlg(alg) => "unknown algorithm '" + alg + "'"
  }

  /** The message gives back the name: two errors with the same text are the same error. */
  lemma ErrorTextGivesName(e: ParseAlgError, f: ParseAlgError)
    requires ErrorText(e) == ErrorText(f)
    ensures e == f
  {
    var text := ErrorText(e);
    assert e.name == text[19..|text| - 1] == f.name;
  }

  /** The ASCII part of `str::to_uppercase` (src/algorithms/mod.rs:57): a lower-case ASCII
      letter becomes its capital, anything else is kept. */
  function UpperChar(c: char): (u: char)
    ensures 'a' <= c <= 'z' ==> 'A' <= u <= 'Z' && u as int + 32 == c as int
    ensures !('a' <= c <= 'z') ==> u == c
  {
    if 'a' <= c <= 'z' then (c as int - 32) as char else c
  }

  /** `str::to_uppercase` on ASCII text. */
  function Upper(s: string): (u: string)
    ensures |u| == |s|
    ensures forall i :: 0 <= i < |s| ==> u[i] == UpperChar(s[i])
  {
    seq(|s|, i requires 0 <= i < |s| => UpperChar(s[i]))
  }

  const TrialDivisionNames: set<string> := {"TRIALDIVISION", "TRIAL DIVISION", "TRIAL_DIVISION"}
  const BrentsRhoNames: set<string> := {"BRENTSRHO", "BRENTS RHO", "BRENTS_RHO", "BRENTS'S RHO"}
  const FermatNames: set<string> := {"FERMAT", "FERMATS", "FERMAT'S"}

  /** `FromStr for Alg` (src/algorithms/mod.rs:53-64): the upper-cased input against the
      spellings of each algorithm; an unknown name is reported as given. */
  function FromStr(s: string): (r: Result<Alg, ParseAlgError>)
    ensures r == Ok(TrialDivision) <==> Upper(s) in TrialDivisionNames
    ensures r == Ok(BrentsRho) <==> Upper(s) in BrentsRhoNames
    ensures r == Ok(Fermat) <==> Upper(s) in FermatNames
    ensures r.Err? <==> Upper(s) !in TrialDivisionNames + BrentsRhoNames + FermatNames
    ensures r.Err? ==> r.error == UnknownAlg(s)
  {
    var u := Upper(s);
    if u in TrialDivisionNames then Ok(TrialDivision)
    else if u in BrentsRhoNames then Ok(BrentsRho)
    else if u in FermatNames then Ok(Fermat)
    else Err(UnknownAlg(s))
  }

  lemma UpperIdempotent(s: string)
    ensures Upper(Upper(s)) == Upper(s)
  {
  }

  /** Parsing ignores case: two names that agree once upper-cased parse to the same
      algorithm, or both fail. */
  lemma FromStrIgnoresCase(s: string, t: string)
    requires Upper(s) == Upper(t)
    ensures FromStr(s).Ok? == FromStr(t).Ok?
    ensures FromStr(s).Ok? ==> FromStr(s) == FromStr(t)
  {
  }

  /** Upper-casing the input first changes only the name an error reports. */
  lemma FromStrOfUpper(s: string)
    ensures FromStr(Upper(s)).Ok? ==> FromStr(Upper(s)) == FromStr(s)
    ensures FromStr(Upper(s)).Err? <==> FromStr(s).Err?
  {
    UpperIdempotent(s);
  }

  /** "fermat", "Fermat's" and "FERMATS" all name Fermat's method. */
  lemma FermatSpellings()
    ensures FromStr("fermat") == Ok(Fermat)
    ensures FromStr("Fermat's") == Ok(Fermat)
    ensures FromStr("FERMATS") == Ok(Fermat)
  {
    NamesFermat(Upper("fermat"), "FERMAT");
    NamesFermat(Upper("Fermat's"), "FERMAT'S");
    NamesFermat(Upper("FERMATS"), "FERMATS");
  }

  /** A short name among Fermat's spellings is none of the others. */
  lemma NamesFermat(u: string, name: string)
    requires u == name && name in FermatNames
    ensures u !in TrialDivisionNames && u !in BrentsRhoNames && u !in FixedBrentsRhoNames
  {
    assert |u| <= 8;
  }

  /** The displayed names, upper-cased. */
  lemma UpperDisplay(alg: Alg)
    ensures alg == TrialDivision ==> Upper(Display(alg)) == "TRIAL DIVISION"
    ensures alg == BrentsRho ==> Upper(Display(alg)) == "BRENT'S RHO"
    ensures alg == Fermat ==> Upper(Display(alg)) == "FERMAT"
  {
    match alg
    case TrialDivision => UpperTrialDivision();
    case BrentsRho => UpperBrentsRho();
    case Fermat => UpperFermat();
  }

  lemma UpperTrialDivision()
    ensures Upper("trial division") == "TRIAL DIVISION"
  {
  }

  lemma UpperBrentsRho()
    ensures Upper("Brent's Rho") == "BRENT'S RHO"
  {
  }

  lemma UpperFermat()
    ensures Upper("Fermat") == "FERMAT"
  {
  }

  /** The displayed names of trial division and Fermat's method parse back. */
  lemma ParseDisplay(alg: Alg)
    requires alg != BrentsRho
    ensures FromStr(Display(alg)) == Ok(alg)
  {
    UpperDisplay(alg);
    if alg == Fermat {
      NamesFermat(Upper("Fermat"), "FERMAT");
    }
  }

  /** As written, the displayed name of Brent's rho does not parse back: it upper-cases to
      "BRENT'S RHO", and the list has "BRENTS'S RHO" instead. */
  lemma DisplayBrentsRhoUnknown()
    ensures FromStr(Display(BrentsRho)) == Err(UnknownAlg("Brent's Rho"))
  {
    var u := Upper("Brent's Rho");
    assert u == "BRENT'S RHO";
    assert |u| == 11;
    assert u !in TrialDivisionNames;
    assert u !in BrentsRhoNames;
    assert u !in FermatNames;
  }

  /** The spelling list with "BRENT'S RHO", the upper-cased display name. */
  const FixedBrentsRhoNames: set<string> := BrentsRhoNames + {"BRENT'S RHO"}

  /** The parser with the corrected spelling list. */
  function FixedFromStr(s: string): (r: Result<Alg, ParseAlgError>)
    ensures r == Ok(BrentsRho) <==> Upper(s) in FixedBrentsRhoNames
    ensures r.Err? ==> r.error == UnknownAlg(s)
    ensures Upper(s) !in FixedBrentsRhoNames ==> r == FromStr(s)
  {
    var u := Upper(s);
    if u in TrialDivisionNames then Ok(TrialDivision)
    else if u in FixedBrentsRhoNames then Ok(BrentsRho)
    else if u in FermatNames then Ok(Fermat)
    else Err(UnknownAlg(s))
  }

  /** With the corrected list, every displayed name parses back. */
  lemma FixedParseDisplay(alg: Alg)
    ensures FixedFromStr(Display(alg)) == Ok(alg)
  {
    UpperDisplay(alg);
    if alg == BrentsRho {
      assert |Upper("Brent's Rho")| == 11;
    } else if alg == Fermat {
      NamesFermat(Upper("Fermat"), "FERMAT");
    }
  }
}
