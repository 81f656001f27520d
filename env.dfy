/** The application environment (env.go): a name read from the ENV variable
    and folded onto one of three predefined values. */
module Environment {

  /** Env is a string type in the source; the wrapper keeps it distinct from
      plain strings. */
  datatype Env = Env(value: string)
  {
    /** Env.String: the underlying string, unchanged. */
    function String(): (r: string)
      ensures Env(r) == this
      ensures |r| == |value|
    {
      value
    }
  }

  const Prod: Env := Env("prod")
  const Dev: Env := Env("dev")
  const Test: Env := Env("test")

  // ---------------------------------------------------------------------------
  // ASCII lower-casing
  // ---------------------------------------------------------------------------

  predicate IsUpper(c: char)
  {
    'A' <= c <= 'Z'
  }

  function LowerChar(c: char): (r: char)
    ensures !IsUpper(r)
    ensures !IsUpper(c) ==> r == c
  {
    if IsUpper(c) then (c as int - 'A' as int + 'a' as int) as char else c
  }

  /** strings.ToLower, restricted to ASCII letters. */
  function Lower(s: string): (r: string)
    ensures |r| == |s|
    ensures forall i :: 0 <= i < |s| ==> r[i] == LowerChar(s[i])
  {
    seq(|s|, i requires 0 <= i < |s| => LowerChar(s[i]))
  }

  /** Lower-casing a second time changes nothing. */
  lemma LowerIdempotent(s: string)
    ensures Lower(Lower(s)) == Lower(s)
  {
    var l := Lower(s);
    forall i | 0 <= i < |l|
      ensures Lower(l)[i] == l[i]
    {
      assert !IsUpper(l[i]);
    }
  }

  /** A string with no upper-case letter is its own lower-case form. */
  lemma LowerOfLower(s: string)
    requires forall i :: 0 <= i < |s| ==> !IsUpper(s[i])
    ensures Lower(s) == s
  {
  }

  /** s and t are equal up to ASCII case (strings.EqualFold on ASCII). */
  ghost predicate EqualFold(s: string, t: string)
  {
    |s| == |t| && forall i :: 0 <= i < |s| ==> LowerChar(s[i]) == LowerChar(t[i])
  }

  lemma EqualFoldLower(s: string, t: string)
    ensures EqualFold(s, t) <==> Lower(s) == Lower(t)
  {
    if Lower(s) == Lower(t) {
      forall i | 0 <= i < |s|
        ensures LowerChar(s[i]) == LowerChar(t[i])
      {
        assert Lower(s)[i] == Lower(t)[i];
      }
    }
  }

  // ---------------------------------------------------------------------------
  // parseEnv
  // ---------------------------------------------------------------------------

  /** parseEnv: "dev", "develop" and "development" give Dev, "test" and
      "testing" give Test, anything else gives Prod; the comparison is made
      on the lower-cased input. */
  function ParseEnv(s: string): (r: Env)
    ensures r == Prod || r == Dev || r == Test
  {
    var l := Lower(s);
    if l == "dev" || l == "develop" || l == "development" then Dev
    else if l == "test" || l == "testing" then Test
    else Prod
  }

  /** parseEnv only looks at the lower-cased input. */
  lemma ParseEnvCaseInsensitive(s: string)
    ensures ParseEnv(s) == ParseEnv(Lower(s))
  {
    LowerIdempotent(s);
  }

  /** Two inputs equal up to case parse to the same environment. */
  lemma ParseEnvEqualFold(s: string, t: string)
    requires EqualFold(s, t)
    ensures ParseEnv(s) == ParseEnv(t)
  {
    EqualFoldLower(s, t);
  }

  /** The names that select Dev, up to case. */
  ghost predicate DevName(s: string)
  {
    EqualFold(s, "dev") || EqualFold(s, "develop") || EqualFold(s, "development")
  }

  /** The names that select Test, up to case. */
  ghost predicate TestName(s: string)
  {
    EqualFold(s, "test") || EqualFold(s, "testing")
  }

  lemma LowerNames()
    ensures Lower("dev") == "dev" && Lower("develop") == "develop" && Lower("development") == "development"
    ensures Lower("test") == "test" && Lower("testing") == "testing"
  {
    LowerOfLower("dev");
    LowerOfLower("develop");
    LowerOfLower("development");
    LowerOfLower("test");
    LowerOfLower("testing");
  }

  /** Dev is chosen exactly for the three development names, in any case. */
  lemma ParseEnvDev(s: string)
    ensures ParseEnv(s) == Dev <==> DevName(s)
  {
    LowerNames();
    EqualFoldLower(s, "dev");
    EqualFoldLower(s, "develop");
    EqualFoldLower(s, "development");
  }

  /** Test is chosen exactly for the two testing names, in any case. */
  lemma ParseEnvTest(s: string)
    ensures ParseEnv(s) == Test <==> TestName(s)
  {
    LowerNames();
    EqualFoldLower(s, "test");
    EqualFoldLower(s, "testing");
  }

  /** Everything else, including the empty string the caller passes when ENV
      is unset, is Prod. */
  lemma ParseEnvProd(s: string)
    ensures ParseEnv(s) == Prod <==> !DevName(s) && !TestName(s)
  {
    ParseEnvDev(s);
    ParseEnvTest(s);
  }

  lemma ParseEnvExamples()
    ensures ParseEnv("") == Prod
    ensures ParseEnv("DEV") == Dev
    ensures ParseEnv("Development") == Dev
    ensures ParseEnv("TeSTinG") == Test
    ensures ParseEnv("prod") == Prod
    ensures ParseEnv("staging") == Prod
    ensures ParseEnv("dev-feature-1") == Prod
  {
    assert Lower("DEV") == "dev";
    assert Lower("Development") == "development";
    assert Lower("TeSTinG") == "testing";
    // No name has 13 letters; no name starts with 's' or 'p'.
    assert |Lower("dev-feature-1")| == 13;
    assert Lower("staging")[0] == 's';
    assert Lower("prod")[0] == 'p';
  }

  /** Each predefined environment's string parses back to itself. */
  lemma ParseEnvString(e: Env)
    requires e == Prod || e == Dev || e == Test
    ensures ParseEnv(e.String()) == e
  {
    LowerNames();
    LowerOfLower("prod");
  }

  /** Parsing the string of a parsed environment gives it back. */
  lemma ParseEnvIdempotent(s: string)
    ensures ParseEnv(ParseEnv(s).String()) == ParseEnv(s)
  {
    ParseEnvString(ParseEnv(s));
  }
}
