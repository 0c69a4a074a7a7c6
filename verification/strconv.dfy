/**
 * Go's strconv.ParseBool, the parser the admission handler applies to the
 * value of its injection annotation. It accepts exactly twelve literals and
 * reports every other string, the empty one included, as a syntax error.
 */
module StrConv {

  import opened Wrappers

  /** strconv.ParseBool: the literal table of Go's standard library; None is its syntax error. */
  function ParseBool(s: string): (r: Option<bool>)
    ensures r.Some? ==> 1 <= |s| <= 5
    ensures r.Some? ==> (r.value <==> s[0] in "1tT")
  {
    match s
    case "1" | "t" | "T" | "TRUE" | "true" | "True" => Some(true)
    case "0" | "f" | "F" | "FALSE" | "false" | "False" => Some(false)
    case _ => None
  }

  // An independent description of the accepted spellings, built from the
  // two words "true" and "false": the digit, the word's initial in either
  // case, and the word in lower, capitalised and upper case.

  function Word(b: bool): string
  {
    if b then "true" else "false"
  }

  function Digit(b: bool): string
  {
    if b then "1" else "0"
  }

  function UpperChar(c: char): char
  {
    if 'a' <= c <= 'z' then (c as int - 32) as char else c
  }

  function Upper(w: string): (u: string)
    ensures |u| == |w|
  {
    seq(|w|, i requires 0 <= i < |w| => UpperChar(w[i]))
  }

  ghost predicate Spells(s: string, b: bool)
  {
    var w := Word(b);
    || s == Digit(b)
    || s == w[..1]
    || s == Upper(w[..1])
    || s == w
    || s == Upper(w[..1]) + w[1..]
    || s == Upper(w)
  }

  /** ParseBool accepts exactly the spellings of a boolean, and reads each as that boolean. */
  lemma ParseBoolSpells(s: string, b: bool)
    ensures ParseBool(s) == Some(b) <==> Spells(s, b)
  {
    var w := Word(b);
    if b {
      assert w[..1] == "t" && w[1..] == "rue";
      assert Upper("t") == "T";
      assert Upper("true") == "TRUE";
      assert Upper("t") + "rue" == "True";
    } else {
      assert w[..1] == "f" && w[1..] == "alse";
      assert Upper("f") == "F";
      assert Upper("false") == "FALSE";
      assert Upper("f") + "alse" == "False";
    }
  }

  /** A string that spells neither boolean is a syntax error. */
  lemma ParseBoolRejects(s: string)
    requires !Spells(s, true) && !Spells(s, false)
    ensures ParseBool(s) == None
  {
  }
}
