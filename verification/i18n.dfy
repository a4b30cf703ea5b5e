/** The localisation layer: the six interface languages, their codes, and
    lookups in a translation table with positional `%n` / `%d`
    substitution. */
module I18n {
  import opened Text

  datatype Language = English | Russian | German | Chinese | Spanish | French

  /** `Language::code`: the two-letter code of a language. */
  function Code(l: Language): (r: string)
    ensures |r| == 2
  {
    match l
    case English => "en"
    case Russian => "ru"
    case German => "de"
    case Chinese => "zh"
    case Spanish => "es"
    case French => "fr"
  }

  /** `Language::name`: the language's name in that language. */
  function Name(l: Language): (name: string)
    ensures |name| > 0 && name != Code(l)
  {
    match l
    case English => "English"
    case Russian => "Русский"
    case German => "Deutsch"
    case Chinese => "中文"
    case Spanish => "Español"
    case French => "Français"
  }

  /** The locale codes `from_code` recognises. */
  const KnownCodes: set<string> :=
    {"ru", "ru-RU", "de", "de-DE", "zh", "zh-CN", "zh-TW", "es", "es-ES", "es-MX", "fr", "fr-FR"}

  /** `Language::from_code`: a locale code, with or without its region, to
      a language; anything unrecognised is English. */
  function FromCode(code: string): (l: Language)
    ensures code !in KnownCodes ==> l == English
    ensures code in KnownCodes ==> l != English
  {
    if code == "ru" || code == "ru-RU" then Russian
    else if code == "de" || code == "de-DE" then German
    else if code == "zh" || code == "zh-CN" || code == "zh-TW" then Chinese
    else if code == "es" || code == "es-ES" || code == "es-MX" then Spanish
    else if code == "fr" || code == "fr-FR" then French
    else English
  }

  /** `Language::all`: every language once, English first. */
  function All(): (r: seq<Language>)
    ensures |r| == 6 && r[0] == English
    ensures forall i, j :: 0 <= i < j < |r| ==> r[i] != r[j]
  {
    [English, Russian, German, Chinese, Spanish, French]
  }

  /** `from_code` inverts `code`. */
  lemma CodeRoundTrip(l: Language)
    ensures FromCode(Code(l)) == l
  {
  }

  /** A recognised regional code maps to the language whose code is its
      first two letters. */
  lemma RegionalVariants(code: string)
    requires code in KnownCodes
    ensures Code(FromCode(code)) == code[..2]
  {
  }

  /** `all()` lists every language. */
  lemma {:induction false} AllComplete(l: Language)
    ensures l in All()
  {
    match l
    case English => assert All()[0] == l;
    case Russian => assert All()[1] == l;
    case German => assert All()[2] == l;
    case Chinese => assert All()[3] == l;
    case Spanish => assert All()[4] == l;
    case French => assert All()[5] == l;
  }

  /** Codes and names tell the languages apart. */
  lemma {:induction false} CodesAndNamesDistinct(l: Language, m: Language)
    requires l != m
    ensures Code(l) != Code(m)
    ensures Name(l) != Name(m)
  {
    CodeRoundTrip(l);
    CodeRoundTrip(m);
    assert Name(l)[0] != Name(m)[0] || Name(l)[1] != Name(m)[1];
  }

  /** A translation table: key to localised text. */
  datatype Translations = Translations(table: map<string, string>)

  /** `Translations::fallback`: only the application title. */
  function Fallback(): (t: Translations)
    ensures t.table.Keys == {"app_title"}
  {
    Translations(map["app_title" := "Cedar Folder Size Analyzer"])
  }

  /** `Translations::get`: the stored text, or the key in brackets. */
  function Get(t: Translations, key: string): (r: string)
    ensures key in t.table ==> r == t.table[key]
    ensures key !in t.table ==> r == "[" + key + "]"
  {
    if key in t.table then t.table[key] else "[" + key + "]"
  }

  /** On the fallback table every key but the title shows as `[key]`. */
  lemma FallbackGet(key: string)
    ensures key == "app_title" ==> Get(Fallback(), key) == "Cedar Folder Size Analyzer"
    ensures key != "app_title" ==> Get(Fallback(), key) == "[" + key + "]"
  {
  }

  /** `str::replace`: every non-overlapping occurrence of `pat`, taken
      from the left, replaced by `rep`. */
  function Replace(s: string, pat: string, rep: string): string
    requires |pat| > 0
    decreases |s|
  {
    if |s| < |pat| then s
    else if s[..|pat|] == pat then rep + Replace(s[|pat|..], pat, rep)
    else [s[0]] + Replace(s[1..], pat, rep)
  }

  /** `format!("%{}", n)`. */
  function Placeholder(n: nat): string
  {
    "%" + NatToString(n)
  }

  /** The template after the substitution rounds of the first `|args|`
      arguments: round `i` replaces `%i` and then `%d` by argument `i`. */
  function Substituted(template: string, args: seq<string>): string
  {
    if args == [] then template
    else
      var n := |args|;
      Replace(Replace(Substituted(template, args[..n - 1]), Placeholder(n), args[n - 1]), "%d", args[n - 1])
  }

  /** `Translations::get_fmt`. */
  method GetFmt(t: Translations, key: string, args: seq<string>) returns (r: string)
    ensures r == Substituted(Get(t, key), args)
    ensures args == [] ==> r == Get(t, key)
  {
    r := Get(t, key);
    for i := 0 to |args|
      invariant r == Substituted(Get(t, key), args[..i])
    {
      assert args[..i + 1][..i] == args[..i];
      r := Replace(r, Placeholder(i + 1), args[i]);
      r := Replace(r, "%d", args[i]);
    }
    assert args[..|args|] == args;
  }

  /** A piece of a message template: literal text, the placeholder `%1`,
      or the placeholder `%d`. */
  datatype Piece = Lit(text: string) | First | AnyD

  /** The template text of a list of pieces, with `one` written for each
      `%1` and `d` for each `%d`. */
  function Render(ps: seq<Piece>, one: string, d: string): string
  {
    if ps == [] then ""
    else
      (match ps[0]
       case Lit(s) => s
       case First => one
       case AnyD => d) + Render(ps[1..], one, d)
  }

  predicate NoPercent(s: string)
  {
    forall i :: 0 <= i < |s| ==> s[i] != '%'
  }

  /** The literal pieces contain no `%`. */
  predicate PlainLiterals(ps: seq<Piece>)
  {
    forall i :: 0 <= i < |ps| ==> ps[i].Lit? ==> NoPercent(ps[i].text)
  }

  lemma {:induction false} ReplaceSkips(x: string, y: string, pat: string, rep: string)
    requires |pat| > 0 && pat[0] == '%' && NoPercent(x)
    ensures Replace(x + y, pat, rep) == x + Replace(y, pat, rep)
    decreases |x|
  {
    if x == [] {
      assert x + y == y;
    } else {
      var c, x' := x[0], x[1..];
      assert c != '%';
      assert NoPercent(x') by {
        forall i | 0 <= i < |x'|
          ensures x'[i] != '%'
        {
          assert x'[i] == x[i + 1];
        }
      }
      assert x + y == [c] + (x' + y);
      ReplaceSkipsChar(c, x' + y, pat, rep);
      ReplaceSkips(x', y, pat, rep);
      assert [c] + (x' + Replace(y, pat, rep)) == x + Replace(y, pat, rep);
    }
  }

  /** A character that cannot start the pattern is kept as it is. */
  lemma ReplaceSkipsChar(c: char, y: string, pat: string, rep: string)
    requires |pat| > 0 && c != pat[0]
    ensures Replace([c] + y, pat, rep) == [c] + Replace(y, pat, rep)
  {
    var s := [c] + y;
    if |s| < |pat| {
      assert Replace(y, pat, rep) == y;
    } else {
      assert s[..|pat|][0] == c;
      assert s[1..] == y;
    }
  }

  lemma ReplaceHit(y: string, pat: string, rep: string)
    requires |pat| > 0
    ensures Replace(pat + y, pat, rep) == rep + Replace(y, pat, rep)
  {
    assert (pat + y)[..|pat|] == pat;
    assert (pat + y)[|pat|..] == y;
  }

  /** `%d` is left alone by the replacement of `%1`. */
  lemma ReplaceMissD(y: string, rep: string)
    ensures Replace("%d" + y, "%1", rep) == "%d" + Replace(y, "%1", rep)
  {
    var s := "%d" + y;
    assert s[..2] != "%1" by { assert s[..2][1] == 'd'; }
    assert Replace(s, "%1", rep) == ['%'] + Replace(s[1..], "%1", rep);
    assert s[1..] == ['d'] + y;
    ReplaceSkipsChar('d', y, "%1", rep);
    assert ['%'] + (['d'] + Replace(y, "%1", rep)) == "%d" + Replace(y, "%1", rep);
  }

  /** The first round replaces each `%1` of the template and nothing else. */
  lemma {:induction false} FirstRound(ps: seq<Piece>, a: string)
    requires PlainLiterals(ps)
    ensures Replace(Render(ps, "%1", "%d"), "%1", a) == Render(ps, a, "%d")
    decreases |ps|
  {
    if ps != [] {
      var rest := Render(ps[1..], "%1", "%d");
      assert PlainLiterals(ps[1..]) by {
        forall i | 0 <= i < |ps[1..]| && ps[1..][i].Lit?
          ensures NoPercent(ps[1..][i].text)
        {
          assert ps[1..][i] == ps[i + 1];
        }
      }
      FirstRound(ps[1..], a);
      match ps[0]
      case Lit(s) =>
        ReplaceSkips(s, rest, "%1", a);
      case First =>
        ReplaceHit(rest, "%1", a);
      case AnyD =>
        ReplaceMissD(rest, a);
    }
  }

  /** The `%d` step of the first round replaces each `%d` of the template. */
  lemma {:induction false} DRound(ps: seq<Piece>, a: string)
    requires PlainLiterals(ps) && NoPercent(a)
    ensures Replace(Render(ps, a, "%d"), "%d", a) == Render(ps, a, a)
    decreases |ps|
  {
    if ps != [] {
      var rest := Render(ps[1..], a, "%d");
      assert PlainLiterals(ps[1..]) by {
        forall i | 0 <= i < |ps[1..]| && ps[1..][i].Lit?
          ensures NoPercent(ps[1..][i].text)
        {
          assert ps[1..][i] == ps[i + 1];
        }
      }
      DRound(ps[1..], a);
      match ps[0]
      case Lit(s) =>
        ReplaceSkips(s, rest, "%d", a);
      case First =>
        ReplaceSkips(a, rest, "%d", a);
      case AnyD =>
        ReplaceHit(rest, "%d", a);
    }
  }

  lemma {:induction false} FilledPlain(ps: seq<Piece>, a: string)
    requires PlainLiterals(ps) && NoPercent(a)
    ensures NoPercent(Render(ps, a, a))
    decreases |ps|
  {
    if ps != [] {
      assert PlainLiterals(ps[1..]) by {
        forall i | 0 <= i < |ps[1..]| && ps[1..][i].Lit?
          ensures NoPercent(ps[1..][i].text)
        {
          assert ps[1..][i] == ps[i + 1];
        }
      }
      FilledPlain(ps[1..], a);
    }
  }

  /** With one argument free of `%`, every `%1` and `%d` of a template
      whose literal text has no `%` is replaced by the argument, and no
      `%` is left in the result. */
  lemma OneArgument(ps: seq<Piece>, a: string)
    requires PlainLiterals(ps) && NoPercent(a)
    ensures Substituted(Render(ps, "%1", "%d"), [a]) == Render(ps, a, a)
    ensures NoPercent(Substituted(Render(ps, "%1", "%d"), [a]))
  {
    assert Placeholder(1) == "%1";
    assert [a][..0] == [];
    FirstRound(ps, a);
    DRound(ps, a);
    FilledPlain(ps, a);
  }

  // ---------------------------------------------------------------------
  // Ten or more arguments

  /** With ten or more arguments, the first round has already replaced the
      `%1` that begins `%10` by the first argument, so `%10` never reaches
      the tenth: it reads as the first argument followed by `0`. */
  lemma TenthPlaceholderAsWritten(args: seq<string>)
    requires |args| >= 10 && NoPercent(args[0])
    ensures Substituted("%10", args) == args[0] + "0"
  {
    RoundsKeep(args, |args|);
    assert args[..|args|] == args;
  }

  lemma {:induction false} RoundsKeep(args: seq<string>, k: nat)
    requires 1 <= k <= |args| && NoPercent(args[0])
    ensures Substituted("%10", args[..k]) == args[0] + "0"
    decreases k
  {
    var a := args[0];
    var kept := a + "0";
    assert NoPercent(kept) by {
      forall i | 0 <= i < |kept|
        ensures kept[i] != '%'
      {
        if i < |a| {
          assert kept[i] == a[i];
        }
      }
    }
    assert args[..k][..k - 1] == args[..k - 1];
    var prev := Substituted("%10", args[..k - 1]);
    if k == 1 {
      assert prev == "%10";
      assert Placeholder(1) == "%1";
      ReplaceHit("0", "%1", a);
      assert Replace("0", "%1", a) == "0";
      assert Replace(prev, Placeholder(1), a) == kept;
    } else {
      RoundsKeep(args, k - 1);
      ReplaceSkips(kept, [], Placeholder(k), args[k - 1]);
      assert kept + [] == kept;
    }
    ReplaceSkips(kept, [], "%d", args[k - 1]);
    assert kept + [] == kept;
  }

  /** A template with the intended reading of every `%n` made explicit:
      plain text, the numbered placeholder `%n`, or `%d`. */
  datatype Part = Plain(text: string) | Numbered(n: nat) | D

  function Template(ps: seq<Part>): string
  {
    if ps == [] then ""
    else
      (match ps[0]
       case Plain(s) => s
       case Numbered(n) => Placeholder(n)
       case D => "%d") + Template(ps[1..])
  }

  /** A template each of whose placeholders names an argument: plain text
      without `%`, numbers from 1 to the argument count, `%d` only with at
      least one argument, and no digit right after a numbered placeholder. */
  predicate FitsArgs(ps: seq<Part>, args: seq<string>)
  {
    ps == [] ||
    ((match ps[0]
      case Plain(s) => NoPercent(s)
      case Numbered(n) =>
        1 <= n <= |args| && (Template(ps[1..]) == [] || !IsDigit(Template(ps[1..])[0]))
      case D => |args| > 0) &&
     FitsArgs(ps[1..], args))
  }

  /** What the template is meant to say: `%n` is argument `n`, `%d` the
      first argument. */
  function Intended(ps: seq<Part>, args: seq<string>): string
    requires FitsArgs(ps, args)
  {
    if ps == [] then ""
    else
      (match ps[0]
       case Plain(s) => s
       case Numbered(n) => args[n - 1]
       case D => args[0]) + Intended(ps[1..], args)
  }

  /** Substitution in one pass from the left: `%` followed by its whole run
      of digits becomes the argument that number names, `%d` becomes the
      first argument, and inserted text is never scanned again. */
  function Fill(t: string, args: seq<string>): string
    decreases |t|, 1
  {
    if t == [] then ""
    else if t[0] != '%' then [t[0]] + Fill(t[1..], args)
    else FillPercent(t[1..], args)
  }

  /** `Fill` on what follows a `%`: a placeholder when the digits after it
      name an argument or it is `%d`, otherwise a literal `%`. */
  function FillPercent(rest: string, args: seq<string>): string
    decreases |rest| + 1, 0
  {
    var k := DigitPrefix(rest);
    if k > 0 && 1 <= ParseNat(rest[..k]) <= |args| then args[ParseNat(rest[..k]) - 1] + Fill(rest[k..], args)
    else if rest != [] && rest[0] == 'd' && |args| > 0 then args[0] + Fill(rest[1..], args)
    else "%" + Fill(rest, args)
  }

  lemma {:induction false} FillSkips(x: string, y: string, args: seq<string>)
    requires NoPercent(x)
    ensures Fill(x + y, args) == x + Fill(y, args)
    decreases |x|
  {
    if x == [] {
      assert x + y == y;
    } else {
      assert x[0] != '%';
      assert (x + y)[1..] == x[1..] + y;
      assert NoPercent(x[1..]) by {
        forall i | 0 <= i < |x[1..]|
          ensures x[1..][i] != '%'
        {
          assert x[1..][i] == x[i + 1];
        }
      }
      FillSkips(x[1..], y, args);
      assert [x[0]] + (x[1..] + Fill(y, args)) == x + Fill(y, args);
    }
  }

  lemma FillNumbered(n: nat, rest: string, args: seq<string>)
    requires 1 <= n <= |args|
    requires rest == [] || !IsDigit(rest[0])
    ensures Fill(Placeholder(n) + rest, args) == args[n - 1] + Fill(rest, args)
  {
    var t := Placeholder(n) + rest;
    PlaceholderSplit(n, rest);
    FillAt(t[1..], |NatToString(n)|, n, args);
  }

  /** `%n` followed by a non-digit: a `%`, a run of digits reading `n`,
      then the rest. */
  lemma PlaceholderSplit(n: nat, rest: string)
    requires rest == [] || !IsDigit(rest[0])
    ensures var t, k := Placeholder(n) + rest, |NatToString(n)|;
      t != [] && t[0] == '%' && k > 0 && DigitPrefix(t[1..]) == k &&
      ParseNat(t[1..][..k]) == n && t[1..][k..] == rest
  {
    var ds := NatToString(n);
    var t := Placeholder(n) + rest;
    assert t[1..] == ds + rest;
    DigitPrefixOf(ds, rest);
    assert (ds + rest)[..|ds|] == ds;
    assert (ds + rest)[|ds|..] == rest;
    ParseNatToString(n);
  }

  /** After a `%`, a run of `k` digits reading `n`, which names an
      argument, is replaced by that argument. */
  lemma FillAt(rest: string, k: nat, n: nat, args: seq<string>)
    requires k > 0 && DigitPrefix(rest) == k
    requires ParseNat(rest[..k]) == n && 1 <= n <= |args|
    ensures FillPercent(rest, args) == args[n - 1] + Fill(rest[k..], args)
  {
  }

  lemma FillD(rest: string, args: seq<string>)
    requires |args| > 0
    ensures Fill("%d" + rest, args) == args[0] + Fill(rest, args)
  {
    var t := "%d" + rest;
    assert t[1..] == "d" + rest;
    assert DigitPrefix("d" + rest) == 0;
    assert ("d" + rest)[1..] == rest;
  }

  /** The one-pass substitution fills every template that fits its
      arguments exactly as intended, however many arguments there are. */
  lemma {:induction false} FillTemplate(ps: seq<Part>, args: seq<string>)
    requires FitsArgs(ps, args)
    ensures Fill(Template(ps), args) == Intended(ps, args)
    decreases |ps|
  {
    if ps != [] {
      var rest := Template(ps[1..]);
      FillTemplate(ps[1..], args);
      match ps[0]
      case Plain(s) =>
        FillSkips(s, rest, args);
      case Numbered(n) =>
        FillNumbered(n, rest, args);
      case D =>
        FillD(rest, args);
    }
  }

  /** The two readings part ways at `%10` with ten arguments. */
  lemma TenArguments()
    ensures var args := ["a", "b", "c", "d", "e", "f", "g", "h", "i", "j"];
      Substituted("%10", args) == "a0" && Fill("%10", args) == "j"
  {
    var args := ["a", "b", "c", "d", "e", "f", "g", "h", "i", "j"];
    TenthPlaceholderAsWritten(args);
    assert Template([Numbered(10)]) == "%10" by {
      assert NatToString(10) == NatToString(1) + [DigitChar(0)];
    }
    FillTemplate([Numbered(10)], args);
  }
}
