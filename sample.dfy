/**
  The greeting and string-colouring utilities of `mujtaba_charm.utils.sample`.
  Python's exceptions become the `Err` side of a `Result`.
 */
module Sample {
  import opened PyStr

  /** The two exceptions the utilities raise, with their messages. */
  datatype Error = TypeError(message: string) | ValueError(message: string)

  datatype Result<T> = Ok(value: T) | Err(error: Error)

  datatype Option<T> = None | Some(value: T)

  /** The dynamically typed argument of `hello`: a Python value of some built-in type. */
  datatype PyValue =
    | Str(s: string)
    | Int(i: int)
    | Float(f: real)
    | Bool(b: bool)
    | NoneValue
    | List(items: seq<PyValue>)

  /** `type(v).__name__`: never empty, and "str" exactly for a string. */
  function TypeName(v: PyValue): (n: string)
    ensures |n| > 0
    ensures n == "str" <==> v.Str?
  {
    match v
    case Str(_) => "str"
    case Int(_) => "int"
    case Float(_) => "float"
    case Bool(_) => "bool"
    case NoneValue => "NoneType"
    case List(_) => "list"
  }

  const GreetingPrefix: string := "hello "
  const GreetingSuffix: string := "!"

  /** The message of the TypeError raised for a non-string name (leading space included). */
  function NotAStringMessage(v: PyValue): (m: string)
    ensures |m| > 0 && m[0] == ' '
    ensures Contains(m, TypeName(v))
    ensures Contains(m, "name should be of string type")
  {
    ContainsMiddle(" " + TypeName(v) + " is not allowed, ", "name should be of string type", "");
    assert " " + TypeName(v) + " is not allowed, name should be of string type"
        == " " + TypeName(v) + " is not allowed, " + "name should be of string type" + "";
    ContainsMiddle(" ", TypeName(v), " is not allowed, name should be of string type");
    " " + TypeName(v) + " is not allowed, name should be of string type"
  }

  /**
    `hello(name="world")`: greets a string name; any other value is a TypeError
    whose message says a string was expected, and no greeting is produced.
   */
  function Hello(name: PyValue := Str("world")): (r: Result<string>)
    ensures r.Ok? <==> name.Str?
    ensures r.Ok? ==>
              && |r.value| == |name.s| + 7
              && r.value[..6] == GreetingPrefix
              && r.value[6..|r.value| - 1] == name.s
              && r.value[|r.value| - 1..] == GreetingSuffix
    ensures r.Err? ==>
              && r.error.TypeError?
              && Contains(r.error.message, "name should be of string type")
              && Contains(r.error.message, TypeName(name))
  {
    if !name.Str? then
      Err(TypeError(NotAStringMessage(name)))
    else
      Ok(GreetingPrefix + name.s + GreetingSuffix)
  }

  /** Reads the name back out of a greeting, if the string is one. */
  function GreetedName(g: string): (n: Option<string>)
    ensures n.Some? ==> |n.value| == |g| - 7
  {
    if |g| >= 7 && g[..6] == GreetingPrefix && g[|g| - 1..] == GreetingSuffix
    then Some(g[6..|g| - 1])
    else None
  }

  /** Every string is greeted as "hello " + name + "!". */
  lemma HelloString(name: string)
    ensures Hello(Str(name)) == Ok("hello " + name + "!")
  {
  }

  /** Greeting and reading back are inverse: a greeting names exactly the string greeted. */
  lemma HelloRoundTrip(name: string, g: string)
    ensures Hello(Str(name)) == Ok(g) <==> GreetedName(g) == Some(name)
  {
    if GreetedName(g) == Some(name) {
      assert g == g[..6] + g[6..|g| - 1] + g[|g| - 1..];
    }
  }

  /** Different names give different greetings. */
  lemma HelloInjective(a: string, b: string)
    requires Hello(Str(a)) == Hello(Str(b))
    ensures a == b
  {
    HelloRoundTrip(a, Hello(Str(a)).value);
    HelloRoundTrip(b, Hello(Str(b)).value);
  }

  /** The default argument greets the world; "john" is greeted by name. */
  lemma HelloExamples()
    ensures Hello() == Ok("hello world!")
    ensures Hello(Str("john")) == Ok("hello john!")
  {
    assert GreetingPrefix + "world" + GreetingSuffix == "hello world!";
    assert GreetingPrefix + "john" + GreetingSuffix == "hello john!";
  }

  /** `hello(2024)` raises a TypeError naming the type `int`. */
  lemma HelloRejectsInt()
    ensures Hello(Int(2024)) == Err(TypeError(" int" + " is not allowed, name should be of string type"))
  {
    assert " " + "int" == " int";
  }

  // ---------------------------------------------------------------------
  // color_string

  /** The ANSI select-graphic-rendition sequences for the three colours. */
  const Red: string := "\U{1B}[91m"
  const Blue: string := "\U{1B}[94m"
  const Green: string := "\U{1B}[92m"
  const ResetCode: string := "\U{1B}[0m"

  /** The colour table, keyed by lower-case colour name. */
  const ColorCodes: map<string, string> := map["red" := Red, "blue" := Blue, "green" := Green]

  /** The message of the ValueError raised for an unknown (lower-cased) colour. */
  function InvalidColorMessage(color: string): (m: string)
    ensures Contains(m, color)
    ensures |m| == |color| + 63
    ensures m[..15] == "Invalid color: " && m[15..15 + |color|] == color
  {
    ContainsMiddle("Invalid color: ", color, ". Allowed colors are 'red', 'blue', and 'green'.");
    "Invalid color: " + color + ". Allowed colors are 'red', 'blue', and 'green'."
  }

  /**
    `color_string(text, color)`: `text` wrapped between the colour's code and the
    reset code, the colour looked up after lower-casing; an unknown colour is a
    ValueError naming the lower-cased colour.
   */
  function ColorString(text: string, color: string): (r: Result<string>)
    ensures r.Ok? <==> Lower(color) in ColorCodes
    ensures r.Ok? ==>
              && |r.value| == |text| + 9
              && r.value[..5] == ColorCodes[Lower(color)]
              && r.value[5..|r.value| - 4] == text
              && r.value[|r.value| - 4..] == ResetCode
    ensures r.Err? ==>
              && r.error == ValueError(InvalidColorMessage(Lower(color)))
              && Contains(r.error.message, Lower(color))
  {
    var c := Lower(color);
    if c !in ColorCodes then
      Err(ValueError(InvalidColorMessage(c)))
    else
      Ok(ColorCodes[c] + text + ResetCode)
  }

  /** Removes a colour code and the reset code around a string, if both are there. */
  function Uncolor(s: string): (t: Option<string>)
    ensures t.Some? ==> |t.value| == |s| - 9
  {
    if |s| >= 9 && s[..5] in ColorCodes.Values && s[|s| - 4..] == ResetCode
    then Some(s[5..|s| - 4])
    else None
  }

  /** The table holds exactly red, blue and green, with their fixed codes. */
  lemma ColorTable()
    ensures ColorCodes.Keys == {"red", "blue", "green"}
    ensures ColorCodes["red"] == "\U{1B}[91m"
    ensures ColorCodes["blue"] == "\U{1B}[94m"
    ensures ColorCodes["green"] == "\U{1B}[92m"
    ensures forall k :: k in ColorCodes ==> |ColorCodes[k]| == 5
    ensures |ResetCode| == 4
  {
  }

  /** A valid colour gives code + text + reset, with the text unchanged in the middle. */
  lemma ColorStringValid(text: string, color: string)
    requires Lower(color) in ColorCodes
    ensures ColorString(text, color) == Ok(ColorCodes[Lower(color)] + text + ResetCode)
  {
  }

  /** Colouring and uncolouring are inverse: uncolouring gives back the text, and
      every string that uncolours is the colouring of its text in some colour. */
  lemma ColorStringRoundTrip(text: string, color: string, s: string)
    ensures ColorString(text, color) == Ok(s) ==> Uncolor(s) == Some(text)
    ensures Uncolor(s) == Some(text) ==>
              exists c :: c in ColorCodes && ColorString(text, c) == Ok(s)
  {
    if Uncolor(s) == Some(text) {
      var code := s[..5];
      var c :| c in ColorCodes && ColorCodes[c] == code;
      LowerMatches(c, c);
      assert s == code + text + ResetCode;
      assert ColorString(text, c) == Ok(s);
    }
  }

  /** Colours are matched case-insensitively: spellings equal after lower-casing give
      the same result, in particular a colour and its lower-cased form. */
  lemma ColorCaseInsensitive(text: string, c1: string, c2: string)
    requires Lower(c1) == Lower(c2)
    ensures ColorString(text, c1) == ColorString(text, c2)
    ensures ColorString(text, c1) == ColorString(text, Lower(c1))
  {
    LowerIdempotent(c1);
  }

  /** A colour is accepted exactly when it spells red, blue or green in any mix of cases. */
  lemma ColorAccepted(text: string, color: string)
    ensures ColorString(text, color).Ok? <==>
              exists k :: k in ColorCodes && SpellsIgnoringCase(color, k)
  {
    forall k | k in ColorCodes ensures Lower(color) == k <==> SpellsIgnoringCase(color, k) {
      LowerMatches(color, k);
    }
  }

  /** `s` is the lower-case word `k` with each letter in either case. */
  predicate SpellsIgnoringCase(s: string, k: string)
    requires AllLowerAscii(k)
  {
    |s| == |k| && forall i :: 0 <= i < |k| ==> s[i] == k[i] || s[i] == UpperChar(k[i])
  }

  /** The three colours of the unit tests, each around "Hello, world!". */
  lemma ColorStringExamples()
    ensures ColorString("Hello, world!", "red") == Ok("\U{1B}[91m" + "Hello, world!" + "\U{1B}[0m")
    ensures ColorString("Hello, world!", "blue") == Ok("\U{1B}[94m" + "Hello, world!" + "\U{1B}[0m")
    ensures ColorString("Hello, world!", "green") == Ok("\U{1B}[92m" + "Hello, world!" + "\U{1B}[0m")
  {
    LowerMatches("red", "red");
    LowerMatches("blue", "blue");
    LowerMatches("green", "green");
  }

  /** An upper-case spelling selects the same colour as the lower-case one. */
  lemma ColorStringUpperCase(text: string)
    ensures ColorString(text, "RED") == ColorString(text, "red")
  {
    LowerMatches("RED", "red");
    LowerMatches("red", "red");
  }

  /** "yellow" is refused with the unit test's message. */
  lemma ColorStringRejectsYellow(text: string)
    ensures ColorString(text, "yellow") ==
              Err(ValueError("Invalid color: yellow" + ". Allowed colors are 'red', 'blue', and 'green'."))
  {
    LowerMatches("yellow", "yellow");
    assert "Invalid color: " + "yellow" == "Invalid color: yellow";
  }
}
