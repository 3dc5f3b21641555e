/** The locale-tolerant number normaliser `norm_float`: the text rewrite the
    calculator applies to every numeric entry before Python's float() reads
    it. A lone decimal comma becomes '.'; with both separators present, ','
    is taken as the decimal mark and every '.' is dropped. The rule the
    docstring describes, where the last separator is the decimal mark, is
    defined beside it as NormalizeNumberLastSeparator. */
module LocaleNumber {
  import opened Results

  /** The characters Python's str.strip() removes when given no argument. */
  predicate IsSpace(c: char)
  {
    var k := c as int;
    (0x09 <= k <= 0x0D) || (0x1C <= k <= 0x20) || k == 0x85 || k == 0xA0 ||
    k == 0x1680 || (0x2000 <= k <= 0x200A) || k == 0x2028 || k == 0x2029 ||
    k == 0x202F || k == 0x205F || k == 0x3000
  }

  /** s with its leading whitespace removed. */
  function TrimStart(s: string): (r: string)
    ensures |r| <= |s| && r == s[|s| - |r|..]
    ensures forall i :: 0 <= i < |s| - |r| ==> IsSpace(s[i])
    ensures r == [] || !IsSpace(r[0])
  {
    if s != [] && IsSpace(s[0]) then
      var r := TrimStart(s[1..]);
      assert s[1..][|s| - 1 - |r|..] == s[|s| - |r|..];
      assert forall i :: 1 <= i < |s| ==> s[i] == s[1..][i - 1];
      r
    else s
  }

  /** s with its trailing whitespace removed. */
  function TrimEnd(s: string): (r: string)
    ensures |r| <= |s| && r == s[..|r|]
    ensures forall i :: |r| <= i < |s| ==> IsSpace(s[i])
    ensures r == [] || !IsSpace(r[|r| - 1])
  {
    if s != [] && IsSpace(s[|s| - 1]) then
      var r := TrimEnd(s[..|s| - 1]);
      assert s[..|s| - 1][..|r|] == s[..|r|];
      r
    else s
  }

  /** str.strip(): s without its leading and trailing whitespace. */
  function Strip(s: string): (r: string)
    ensures r == [] || (!IsSpace(r[0]) && !IsSpace(r[|r| - 1]))
  {
    TrimEnd(TrimStart(s))
  }

  /** The stripped string is the slice of s between a whitespace prefix
      and a whitespace suffix. */
  lemma {:induction false} StripIsSlice(s: string)
    ensures var r, k := Strip(s), |s| - |TrimStart(s)|;
      && k + |r| <= |s| && r == s[k..k + |r|]
      && (forall i :: 0 <= i < k ==> IsSpace(s[i]))
      && (forall i :: k + |r| <= i < |s| ==> IsSpace(s[i]))
  {
  }

  /** Stripping leaves nothing exactly when s is all whitespace. */
  lemma {:induction false} StripEmptyIffBlank(s: string)
    ensures Strip(s) == [] <==> forall i :: 0 <= i < |s| ==> IsSpace(s[i])
  {
  }

  /** Occurrences of c in s. */
  function Count(s: string, c: char): (n: nat)
    ensures n <= |s|
  {
    if s == [] then 0 else (if s[0] == c then 1 else 0) + Count(s[1..], c)
  }

  lemma {:induction false} CountZeroIffAbsent(s: string, c: char)
    ensures Count(s, c) == 0 <==> c !in s
  {
    if s != [] {
      CountZeroIffAbsent(s[1..], c);
      assert s == [s[0]] + s[1..];
    }
  }

  /** str.replace(from, to) for single characters. */
  function Replace(s: string, from: char, to: char): (r: string)
    ensures |r| == |s|
    ensures forall i :: 0 <= i < |s| ==> r[i] == if s[i] == from then to else s[i]
  {
    if s == [] then [] else [if s[0] == from then to else s[0]] + Replace(s[1..], from, to)
  }

  /** str.replace(c, ''): s with every c deleted. */
  function Delete(s: string, c: char): (r: string)
    ensures |r| <= |s|
    ensures c !in r
  {
    if s == [] then [] else (if s[0] == c then [] else [s[0]]) + Delete(s[1..], c)
  }

  lemma {:induction false} DeleteRemoves(s: string, c: char)
    ensures c !in Delete(s, c)
  {
    if s != [] {
      DeleteRemoves(s[1..], c);
    }
  }

  /** Deleting the only occurrence of c. */
  lemma {:induction false} DeleteOne(p: string, c: char, q: string)
    requires c !in p && c !in q
    ensures Delete(p + [c] + q, c) == p + q
  {
    assert Delete([c], c) == [];
    DeleteAppend(p, [c], c);
    DeleteAbsent(p, c);
    assert Delete(p + [c], c) == p;
    DeleteAppend(p + [c], q, c);
    DeleteAbsent(q, c);
  }

  lemma {:induction false} DeleteLength(s: string, c: char)
    ensures |Delete(s, c)| == |s| - Count(s, c)
  {
    if s != [] {
      DeleteLength(s[1..], c);
    }
  }

  /** The characters of s that are neither ',' nor '.', in their order. */
  function WithoutSeparators(s: string): string
  {
    Delete(Delete(s, '.'), ',')
  }

  lemma {:induction false} CountReplace(s: string, a: char, b: char)
    requires a != b
    ensures Count(Replace(s, a, b), b) == Count(s, a) + Count(s, b)
  {
    if s != [] {
      CountReplace(s[1..], a, b);
      assert Replace(s, a, b)[1..] == Replace(s[1..], a, b);
    }
  }

  lemma {:induction false} CountDelete(s: string, c: char, d: char)
    requires c != d
    ensures Count(Delete(s, c), d) == Count(s, d)
  {
    if s != [] {
      CountDelete(s[1..], c, d);
      var head: string := if s[0] == c then [] else [s[0]];
      CountAppend(head, Delete(s[1..], c), d);
    }
  }

  lemma {:induction false} CountAppend(s: string, t: string, c: char)
    ensures Count(s + t, c) == Count(s, c) + Count(t, c)
  {
    if s != [] {
      assert (s + t)[0] == s[0];
      assert (s + t)[1..] == s[1..] + t;
      CountAppend(s[1..], t, c);
      assert Count(s + t, c) == (if s[0] == c then 1 else 0) + Count(s[1..] + t, c);
    } else {
      assert s + t == t;
    }
  }

  lemma {:induction false} DeleteAppend(s: string, t: string, c: char)
    ensures Delete(s + t, c) == Delete(s, c) + Delete(t, c)
  {
    if s != [] {
      assert (s + t)[0] == s[0];
      assert (s + t)[1..] == s[1..] + t;
      DeleteAppend(s[1..], t, c);
      var head: string := if s[0] == c then [] else [s[0]];
      assert Delete(s + t, c) == head + Delete(s[1..] + t, c);
      assert Delete(s, c) == head + Delete(s[1..], c);
    } else {
      assert s + t == t;
    }
  }

  /** Turning a into b and then deleting b deletes both. */
  lemma {:induction false} DeleteReplace(s: string, a: char, b: char)
    ensures Delete(Replace(s, a, b), b) == Delete(Delete(s, a), b)
  {
    if s != [] {
      DeleteReplace(s[1..], a, b);
      var head: string := [if s[0] == a then b else s[0]];
      assert Replace(s, a, b) == head + Replace(s[1..], a, b);
      DeleteAppend(head, Replace(s[1..], a, b), b);
      var kept: string := if s[0] == a then [] else [s[0]];
      assert Delete(s, a) == kept + Delete(s[1..], a);
      DeleteAppend(kept, Delete(s[1..], a), b);
    }
  }

  lemma {:induction false} DeleteCommute(s: string, a: char, b: char)
    ensures Delete(Delete(s, a), b) == Delete(Delete(s, b), a)
  {
    if s != [] {
      DeleteCommute(s[1..], a, b);
      var ka: string := if s[0] == a then [] else [s[0]];
      var kb: string := if s[0] == b then [] else [s[0]];
      DeleteAppend(ka, Delete(s[1..], a), b);
      DeleteAppend(kb, Delete(s[1..], b), a);
    }
  }

  lemma {:induction false} DeleteAbsent(s: string, c: char)
    requires c !in s
    ensures Delete(s, c) == s
  {
    if s != [] {
      DeleteAbsent(s[1..], c);
    }
  }

  /** norm_float up to the call of float(): the text float() is handed, or
      the ValueError raised for a blank entry. */
  function NormalizeNumber(s: string): (r: Result<string>)
    ensures r.Err? <==> Strip(s) == []
    ensures r.Err? ==> r.error == EmptyNumber
    ensures r.Ok? ==> ',' !in r.value && |r.value| <= |Strip(s)|
  {
    var t := Strip(s);
    if t == [] then Err(EmptyNumber)
    else if ',' in t && '.' in t then Ok(Replace(Delete(t, '.'), ',', '.'))
    else if ',' in t then Ok(Replace(t, ',', '.'))
    else Ok(t)
  }

  /** norm_float: the normalised text is handed to float(), which is a
      parameter of the model (None where float() raises ValueError). */
  function NormFloat(toFloat: string -> Option<real>, s: string): (r: Result<real>)
    ensures r.Err? ==> r.error == EmptyNumber || r.error == NotANumber
  {
    var t :- NormalizeNumber(s);
    match toFloat(t)
    case None => Err(NotANumber)
    case Some(x) => Ok(x)
  }

  /** norm_float fails exactly on a blank entry or where float() rejects the
      normalised text; the number it returns is float()'s reading of that
      text. */
  lemma NormFloatReadsNormalizedText(toFloat: string -> Option<real>, s: string)
    ensures NormFloat(toFloat, s) == Err(EmptyNumber) <==> forall i :: 0 <= i < |s| ==> IsSpace(s[i])
    ensures NormalizeNumber(s).Ok? ==>
      (NormFloat(toFloat, s).Err? <==> toFloat(NormalizeNumber(s).value).None?)
    ensures NormFloat(toFloat, s).Ok? ==>
      NormalizeNumber(s).Ok? &&
      toFloat(NormalizeNumber(s).value) == Some(NormFloat(toFloat, s).value)
  {
    NormalizeFailsExactlyOnBlank(s);
  }

  /** The only failure is a blank entry, and every blank entry fails. */
  lemma {:induction false} NormalizeFailsExactlyOnBlank(s: string)
    ensures NormalizeNumber(s).Err? <==> forall i :: 0 <= i < |s| ==> IsSpace(s[i])
    ensures NormalizeNumber(s).Err? ==> NormalizeNumber(s).error == EmptyNumber
  {
    StripEmptyIffBlank(s);
  }

  lemma {:induction false} ReplaceRemoves(s: string, a: char, b: char)
    requires a != b
    ensures a !in Replace(s, a, b)
  {
    var r := Replace(s, a, b);
    forall i | 0 <= i < |r| ensures r[i] != a {
    }
  }

  /** A normalised number is never empty and never contains a comma. */
  lemma {:induction false} NormalizeRemovesCommas(s: string)
    requires NormalizeNumber(s).Ok?
    ensures ',' !in NormalizeNumber(s).value
    ensures NormalizeNumber(s).value != []
  {
    var t := Strip(s);
    if ',' in t && '.' in t {
      var u := Delete(t, '.');
      CountDelete(t, '.', ',');
      CountZeroIffAbsent(t, ',');
      CountZeroIffAbsent(u, ',');
      ReplaceRemoves(u, ',', '.');
      assert NormalizeNumber(s).value == Replace(u, ',', '.');
    } else if ',' in t {
      ReplaceRemoves(t, ',', '.');
      assert NormalizeNumber(s).value == Replace(t, ',', '.');
    } else {
      assert NormalizeNumber(s).value == t;
    }
  }

  /** With both separators present every '.' is dropped as a thousands mark,
      every ',' becomes the decimal '.', and every other character survives
      in order. */
  lemma {:induction false} NormalizeBothSeparators(s: string)
    requires ',' in Strip(s) && '.' in Strip(s)
    ensures NormalizeNumber(s).Ok?
    ensures var t, r := Strip(s), NormalizeNumber(s).value;
      && Count(r, '.') == Count(t, ',')
      && |r| == |t| - Count(t, '.')
      && WithoutSeparators(r) == WithoutSeparators(t)
  {
    var t := Strip(s);
    var u := Delete(t, '.');
    var r := Replace(u, ',', '.');
    CountReplace(u, ',', '.');
    CountDelete(t, '.', ',');
    DeleteRemoves(t, '.');
    CountZeroIffAbsent(u, '.');
    DeleteLength(t, '.');
    KeepsOtherCharacters(t, u, r);
  }

  lemma {:induction false} KeepsOtherCharacters(t: string, u: string, r: string)
    requires u == Delete(t, '.') && r == Replace(u, ',', '.')
    ensures WithoutSeparators(r) == WithoutSeparators(t)
  {
    DeleteRemoves(t, '.');
    DeleteRemoves(Delete(t, '.'), ',');
    calc {
      WithoutSeparators(r);
      Delete(Delete(Replace(u, ',', '.'), '.'), ',');
      { DeleteReplace(u, ',', '.'); }
      Delete(Delete(Delete(u, ','), '.'), ',');
      { DeleteCommute(Delete(t, '.'), ',', '.'); }
      Delete(Delete(Delete(Delete(t, '.'), '.'), ','), ',');
      { DeleteAbsent(Delete(t, '.'), '.'); }
      Delete(Delete(Delete(t, '.'), ','), ',');
      { DeleteAbsent(Delete(Delete(t, '.'), ','), ','); }
      WithoutSeparators(t);
    }
  }

  /** With only commas present the string keeps its length, and differs from
      the stripped input exactly where a ',' became '.'. */
  lemma {:induction false} NormalizeCommaOnly(s: string)
    requires ',' in Strip(s) && '.' !in Strip(s)
    ensures NormalizeNumber(s).Ok?
    ensures var t, r := Strip(s), NormalizeNumber(s).value;
      && |r| == |t|
      && forall i :: 0 <= i < |t| ==> r[i] == if t[i] == ',' then '.' else t[i]
  {
  }

  /** Without a comma the stripped input is handed on unchanged. */
  lemma {:induction false} NormalizeWithoutComma(s: string)
    requires Strip(s) != [] && ',' !in Strip(s)
    ensures NormalizeNumber(s) == Ok(Strip(s))
  {
  }

  /** In every case the digits, signs and other non-separator characters of
      the stripped input reach float() unchanged and in order. */
  lemma {:induction false} NormalizeKeepsOtherCharacters(s: string)
    requires NormalizeNumber(s).Ok?
    ensures WithoutSeparators(NormalizeNumber(s).value) == WithoutSeparators(Strip(s))
  {
    var t := Strip(s);
    if ',' in t && '.' in t {
      NormalizeBothSeparators(s);
    } else if ',' in t {
      assert NormalizeNumber(s).value == Replace(t, ',', '.');
      CommaOnlyKeepsOtherCharacters(t);
    } else {
      assert NormalizeNumber(s).value == t;
    }
  }

  lemma {:induction false} CommaOnlyKeepsOtherCharacters(t: string)
    requires '.' !in t
    ensures WithoutSeparators(Replace(t, ',', '.')) == WithoutSeparators(t)
  {
    DeleteRemoves(t, ',');
    calc {
      WithoutSeparators(Replace(t, ',', '.'));
      Delete(Delete(Replace(t, ',', '.'), '.'), ',');
      { DeleteReplace(t, ',', '.'); }
      Delete(Delete(Delete(t, ','), '.'), ',');
      { DeleteCommute(t, ',', '.'); }
      Delete(Delete(Delete(t, '.'), ','), ',');
      { DeleteAbsent(t, '.'); }
      Delete(Delete(t, ','), ',');
      { DeleteAbsent(Delete(t, ','), ','); }
      Delete(t, ',');
      { DeleteAbsent(t, '.'); }
      WithoutSeparators(t);
    }
  }

  // ---------------------------------------------------------------------
  // The thousands-comma convention.
  //
  // The docstring of norm_float lists '1,234.56' among the strings it
  // converts. As written, a string with both separators always treats ','
  // as the decimal mark, so '1,234.56' reaches float() as '1.23456'.
  // NormalizeNumberLastSeparator is the rule the docstring describes: the
  // separator that occurs last is the decimal mark.
  // ---------------------------------------------------------------------

  /** Exchanges ',' and '.': the same number written in the other convention. */
  function SwapSeparators(s: string): (r: string)
    ensures |r| == |s|
    ensures forall i :: 0 <= i < |s| ==>
      r[i] == if s[i] == ',' then '.' else if s[i] == '.' then ',' else s[i]
  {
    if s == [] then []
    else [if s[0] == ',' then '.' else if s[0] == '.' then ',' else s[0]] + SwapSeparators(s[1..])
  }

  /** As written, the two conventions of one number normalise differently:
      the thousands comma of "1,234.56" is read as its decimal mark. */
  lemma {:induction false} AsWrittenMisreadsThousandsComma(decimalComma: string, thousandsComma: string)
    requires decimalComma == "1.234,56" && thousandsComma == "1,234.56"
    ensures SwapSeparators(decimalComma) == thousandsComma
    ensures NormalizeNumber(decimalComma) == Ok("1234.56")
    ensures NormalizeNumber(thousandsComma) == Ok("1.23456")
  {
    ExampleFacts(decimalComma, thousandsComma);
    ExampleSwap(decimalComma, thousandsComma);
    ExampleReplacements("1234,56", "1,23456");
  }

  lemma {:induction false} ExampleSwap(decimalComma: string, thousandsComma: string)
    requires decimalComma == "1.234,56" && thousandsComma == "1,234.56"
    ensures SwapSeparators(decimalComma) == thousandsComma
  {
    var w := SwapSeparators(decimalComma);
    assert |w| == |thousandsComma|;
    forall i | 0 <= i < |w| ensures w[i] == thousandsComma[i] {
    }
  }

  lemma {:induction false} ExampleReplacements(u: string, v: string)
    requires u == "1234,56" && v == "1,23456"
    ensures Replace(u, ',', '.') == "1234.56"
    ensures Replace(v, ',', '.') == "1.23456"
  {
    ExampleReplacement(u, "1234.56", 4);
    ExampleReplacement(v, "1.23456", 1);
  }

  /** Replacing the one ',' of u, at index k, gives r. */
  lemma {:induction false} ExampleReplacement(u: string, r: string, k: nat)
    requires k < |u| == |r| && u[k] == ',' && r[k] == '.'
    requires forall i :: 0 <= i < |u| && i != k ==> u[i] != ',' && r[i] == u[i]
    ensures Replace(u, ',', '.') == r
  {
    var w := Replace(u, ',', '.');
    forall i | 0 <= i < |u|
      ensures w[i] == r[i]
    {
    }
  }

  /** What the two spellings of 1234.56 are made of. */
  lemma {:induction false} ExampleFacts(decimalComma: string, thousandsComma: string)
    requires decimalComma == "1.234,56" && thousandsComma == "1,234.56"
    ensures Strip(decimalComma) == decimalComma && Strip(thousandsComma) == thousandsComma
    ensures ',' in decimalComma && '.' in decimalComma
    ensures ',' in thousandsComma && '.' in thousandsComma
    ensures Delete(decimalComma, '.') == "1234,56"
    ensures Delete(thousandsComma, '.') == "1,23456"
    ensures Delete(thousandsComma, ',') == "1234.56"
    ensures LastSeparator(decimalComma) == ','
    ensures LastSeparator(thousandsComma) == '.'
  {
    StripPlain(decimalComma);
    StripPlain(thousandsComma);
    assert decimalComma[1] == '.' && decimalComma[5] == ',';
    assert thousandsComma[1] == ',' && thousandsComma[5] == '.';
    ExampleDeletions(decimalComma, thousandsComma);
    ExampleLastSeparators(decimalComma, thousandsComma);
  }

  lemma {:induction false} ExampleDeletions(decimalComma: string, thousandsComma: string)
    requires decimalComma == "1.234,56" && thousandsComma == "1,234.56"
    ensures Delete(decimalComma, '.') == "1234,56"
    ensures Delete(thousandsComma, '.') == "1,23456"
    ensures Delete(thousandsComma, ',') == "1234.56"
  {
    ExampleDeletion(decimalComma, '.', 1, "1234,56");
    ExampleDeletion(thousandsComma, '.', 5, "1,23456");
    ExampleDeletion(thousandsComma, ',', 1, "1234.56");
  }

  /** Deleting the one c of s, at index k, gives r. */
  lemma {:induction false} ExampleDeletion(s: string, c: char, k: nat, r: string)
    requires k < |s| && s[k] == c && |r| == |s| - 1
    requires forall i :: 0 <= i < k ==> s[i] != c && r[i] == s[i]
    requires forall i :: k < i < |s| ==> s[i] != c && r[i - 1] == s[i]
    ensures Delete(s, c) == r
  {
    var p, q := s[..k], s[k + 1..];
    assert s == p + [c] + q;
    assert c !in p && c !in q;
    DeleteOne(p, c, q);
    forall i | 0 <= i < |r|
      ensures (p + q)[i] == r[i]
    {
      if i >= k {
        assert (p + q)[i] == q[i - k] == s[i + 1];
      }
    }
    assert p + q == r;
  }

  lemma {:induction false} ExampleLastSeparators(decimalComma: string, thousandsComma: string)
    requires decimalComma == "1.234,56" && thousandsComma == "1,234.56"
    ensures ',' in decimalComma && LastSeparator(decimalComma) == ','
    ensures ',' in thousandsComma && LastSeparator(thousandsComma) == '.'
  {
    assert decimalComma == "1.234" + [','] + "56";
    LastSeparatorAt("1.234", ',', "56");
    assert thousandsComma == "1,234" + ['.'] + "56";
    LastSeparatorAt("1,234", '.', "56");
  }

  /** A string without whitespace at either end is its own strip. */
  lemma {:induction false} StripPlain(s: string)
    requires s != [] && !IsSpace(s[0]) && !IsSpace(s[|s| - 1])
    ensures Strip(s) == s
  {
  }

  /** The separator, ',' or '.', that occurs last in s. */
  function LastSeparator(s: string): (c: char)
    requires ',' in s || '.' in s
    ensures c == ',' || c == '.'
    ensures c in s
  {
    var last := s[|s| - 1];
    if last == ',' || last == '.' then last
    else
      assert s == s[..|s| - 1] + [last];
      LastSeparator(s[..|s| - 1])
  }

  /** norm_float as its docstring describes it: with both separators
      present, the one that occurs last is the decimal mark and the other is
      a thousands mark. */
  function NormalizeNumberLastSeparator(s: string): (r: Result<string>)
    ensures r.Err? <==> Strip(s) == []
    ensures r.Err? ==> r.error == EmptyNumber
    ensures r.Ok? ==> ',' !in r.value && |r.value| <= |Strip(s)|
  {
    var t := Strip(s);
    if t == [] then Err(EmptyNumber)
    else if ',' in t && '.' in t then
      if LastSeparator(t) == ',' then Ok(Replace(Delete(t, '.'), ',', '.'))
      else Ok(Delete(t, ','))
    else if ',' in t then Ok(Replace(t, ',', '.'))
    else Ok(t)
  }

  /** The separator followed by no other separator is the last one. */
  lemma {:induction false} LastSeparatorAt(p: string, c: char, q: string)
    requires c == ',' || c == '.'
    requires ',' !in q && '.' !in q
    ensures LastSeparator(p + [c] + q) == c
    decreases |q|
  {
    var s := p + [c] + q;
    if q != [] {
      var q' := q[..|q| - 1];
      assert s[..|s| - 1] == p + [c] + q';
      assert s[|s| - 1] == q[|q| - 1];
      LastSeparatorAt(p, c, q');
    } else {
      assert s[|s| - 1] == c;
    }
  }

  /** The corrected rule reads the docstring's two spellings alike. */
  lemma {:induction false} LastSeparatorReadsBothConventions(decimalComma: string, thousandsComma: string)
    requires decimalComma == "1.234,56" && thousandsComma == "1,234.56"
    ensures NormalizeNumberLastSeparator(decimalComma) == Ok("1234.56")
    ensures NormalizeNumberLastSeparator(thousandsComma) == Ok("1234.56")
  {
    ExampleFacts(decimalComma, thousandsComma);
    ExampleReplacements("1234,56", "1,23456");
  }

  /** The corrected rule agrees with the code on every input outside the
      case where both separators occur and '.' comes last. Inside that case
      they can differ ("1,234.56") or agree ("1,.5"). */
  lemma {:induction false} LastSeparatorAgreesUnlessDotIsLast(s: string)
    requires !(',' in Strip(s) && '.' in Strip(s) && LastSeparator(Strip(s)) == '.')
    ensures NormalizeNumberLastSeparator(s) == NormalizeNumber(s)
  {
  }

  /** With ',' and '.' both present and '.' last, the corrected rule drops
      every ',' thousands mark and keeps the text otherwise. */
  lemma {:induction false} LastSeparatorDotLast(s: string)
    requires ',' in Strip(s) && '.' in Strip(s) && LastSeparator(Strip(s)) == '.'
    ensures NormalizeNumberLastSeparator(s).Ok?
    ensures var t, r := Strip(s), NormalizeNumberLastSeparator(s).value;
      && ',' !in r
      && Count(r, '.') == Count(t, '.')
      && |r| == |t| - Count(t, ',')
      && WithoutSeparators(r) == WithoutSeparators(t)
  {
    var t := Strip(s);
    var r := Delete(t, ',');
    DeleteRemoves(t, ',');
    CountDelete(t, ',', '.');
    DeleteLength(t, ',');
    DeleteCommute(t, ',', '.');
    DeleteRemoves(Delete(t, '.'), ',');
    DeleteAbsent(WithoutSeparators(t), ',');
  }

  /** The corrected rule fails exactly on a blank entry, like the code. */
  lemma CorrectedFailsExactlyOnBlank(s: string)
    ensures NormalizeNumberLastSeparator(s).Err? <==> forall i :: 0 <= i < |s| ==> IsSpace(s[i])
    ensures NormalizeNumberLastSeparator(s).Err? ==> NormalizeNumberLastSeparator(s).error == EmptyNumber
  {
    NormalizeFailsExactlyOnBlank(s);
  }

  /** What the corrected rule hands to float() never holds a ',' and keeps
      every character other than a separator, in order. */
  lemma CorrectedNormalForm(s: string)
    requires NormalizeNumberLastSeparator(s).Ok?
    ensures ',' !in NormalizeNumberLastSeparator(s).value
    ensures WithoutSeparators(NormalizeNumberLastSeparator(s).value) == WithoutSeparators(Strip(s))
  {
    var t := Strip(s);
    if ',' in t && '.' in t && LastSeparator(t) == '.' {
      LastSeparatorDotLast(s);
    } else {
      LastSeparatorAgreesUnlessDotIsLast(s);
      NormalizeRemovesCommas(s);
      NormalizeKeepsOtherCharacters(s);
    }
  }

  /** The corrected rule does not depend on the convention: writing a number
      with ',' and '.' exchanged normalises to the same text. */
  lemma {:induction false} LastSeparatorConventionFree(s: string)
    ensures NormalizeNumberLastSeparator(SwapSeparators(s)) == NormalizeNumberLastSeparator(s)
  {
    var t := Strip(s);
    StripSwap(s);
    SwapMembership(t);
    if ',' in t && '.' in t {
      ConventionFreeBoth(s);
    } else if t != [] {
      ConventionFreeOne(s);
    }
  }

  lemma {:induction false} ConventionFreeBoth(s: string)
    requires ',' in Strip(s) && '.' in Strip(s)
    ensures NormalizeNumberLastSeparator(SwapSeparators(s)) == NormalizeNumberLastSeparator(s)
  {
    var t := Strip(s);
    var w := SwapSeparators(t);
    StripSwap(s);
    LastSeparatorSwap(t);
    assert Strip(SwapSeparators(s)) == w;
    if LastSeparator(t) == ',' {
      DeleteSwap(t);
      assert NormalizeNumberLastSeparator(s) == Ok(Replace(Delete(t, '.'), ',', '.'));
      assert NormalizeNumberLastSeparator(SwapSeparators(s)) == Ok(Delete(w, ','));
    } else {
      DeleteSwap(w);
      SwapTwice(t);
      assert NormalizeNumberLastSeparator(s) == Ok(Delete(t, ','));
      assert NormalizeNumberLastSeparator(SwapSeparators(s)) == Ok(Replace(Delete(w, '.'), ',', '.'));
    }
  }

  lemma {:induction false} ConventionFreeOne(s: string)
    requires Strip(s) != [] && !(',' in Strip(s) && '.' in Strip(s))
    ensures NormalizeNumberLastSeparator(SwapSeparators(s)) == NormalizeNumberLastSeparator(s)
  {
    var t := Strip(s);
    var w := SwapSeparators(t);
    StripSwap(s);
    SwapMembership(t);
    assert Strip(SwapSeparators(s)) == w;
    if ',' in t {
      SwapIsReplace(t, ',', '.');
      assert NormalizeNumberLastSeparator(s) == Ok(w);
      assert NormalizeNumberLastSeparator(SwapSeparators(s)) == Ok(w);
    } else if '.' in t {
      SwapIsReplace(t, '.', ',');
      ReplaceUndoesSwap(t);
      assert NormalizeNumberLastSeparator(s) == Ok(t);
      assert NormalizeNumberLastSeparator(SwapSeparators(s)) == Ok(Replace(w, ',', '.'));
    } else {
      SwapIsReplace(t, ',', '.');
      assert Replace(t, ',', '.') == t;
      assert NormalizeNumberLastSeparator(s) == Ok(t);
    }
  }

  lemma {:induction false} SwapMembership(t: string)
    ensures ',' in SwapSeparators(t) <==> '.' in t
    ensures '.' in SwapSeparators(t) <==> ',' in t
    ensures SwapSeparators(t) == [] <==> t == []
  {
    var w := SwapSeparators(t);
    if '.' in t {
      var i :| 0 <= i < |t| && t[i] == '.';
      assert w[i] == ',';
    }
    if ',' in t {
      var i :| 0 <= i < |t| && t[i] == ',';
      assert w[i] == '.';
    }
    if ',' in w {
      var i :| 0 <= i < |w| && w[i] == ',';
      assert t[i] == '.';
    }
    if '.' in w {
      var i :| 0 <= i < |w| && w[i] == '.';
      assert t[i] == ',';
    }
  }

  lemma {:induction false} SwapTwice(t: string)
    ensures SwapSeparators(SwapSeparators(t)) == t
  {
  }

  /** When a separator d is absent, swapping is the plain replacement of the other. */
  lemma {:induction false} SwapIsReplace(t: string, c: char, d: char)
    requires (c == ',' && d == '.') || (c == '.' && d == ',')
    requires d !in t
    ensures SwapSeparators(t) == Replace(t, c, d)
  {
  }

  lemma {:induction false} ReplaceUndoesSwap(t: string)
    requires ',' !in t
    ensures Replace(SwapSeparators(t), ',', '.') == t
  {
  }

  lemma {:induction false} DeleteSwap(t: string)
    ensures Delete(SwapSeparators(t), ',') == Replace(Delete(t, '.'), ',', '.')
  {
    if t != [] {
      DeleteSwap(t[1..]);
      var w := SwapSeparators(t);
      assert w[1..] == SwapSeparators(t[1..]);
      var kept: string := if t[0] == '.' then [] else [t[0]];
      assert Delete(t, '.') == kept + Delete(t[1..], '.');
      ReplaceAppend(kept, Delete(t[1..], '.'), ',', '.');
    }
  }

  lemma {:induction false} ReplaceAppend(s: string, t: string, a: char, b: char)
    ensures Replace(s + t, a, b) == Replace(s, a, b) + Replace(t, a, b)
  {
  }

  lemma {:induction false} LastSeparatorSwap(t: string)
    requires ',' in t && '.' in t
    ensures ',' in SwapSeparators(t) && '.' in SwapSeparators(t)
    ensures LastSeparator(SwapSeparators(t)) == if LastSeparator(t) == ',' then '.' else ','
  {
    SwapMembership(t);
    LastSeparatorSwapAny(t);
  }

  lemma {:induction false} LastSeparatorSwapAny(t: string)
    requires ',' in t || '.' in t
    ensures ',' in SwapSeparators(t) || '.' in SwapSeparators(t)
    ensures LastSeparator(SwapSeparators(t)) == if LastSeparator(t) == ',' then '.' else ','
    decreases |t|
  {
    var w := SwapSeparators(t);
    SwapMembership(t);
    var last := t[|t| - 1];
    assert w[|w| - 1] == if last == ',' then '.' else if last == '.' then ',' else last;
    if last != ',' && last != '.' {
      LastSeparatorSkip(t);
      LastSeparatorSkip(w);
      SwapPrefix(t);
      LastSeparatorSwapAny(t[..|t| - 1]);
    }
  }

  /** A last character that is no separator does not decide LastSeparator. */
  lemma {:induction false} LastSeparatorSkip(s: string)
    requires ',' in s || '.' in s
    requires s[|s| - 1] != ',' && s[|s| - 1] != '.'
    ensures ',' in s[..|s| - 1] || '.' in s[..|s| - 1]
    ensures LastSeparator(s) == LastSeparator(s[..|s| - 1])
  {
    var i :| 0 <= i < |s| && (s[i] == ',' || s[i] == '.');
    assert s[..|s| - 1][i] == s[i];
  }

  lemma {:induction false} SwapPrefix(t: string)
    requires t != []
    ensures SwapSeparators(t)[..|t| - 1] == SwapSeparators(t[..|t| - 1])
  {
    var w, p := SwapSeparators(t), t[..|t| - 1];
    var b := SwapSeparators(p);
    forall i | 0 <= i < |p|
      ensures w[i] == b[i]
    {
      assert p[i] == t[i];
    }
    assert w[..|t| - 1] == b;
  }

  lemma {:induction false} TrimStartSwap(s: string)
    ensures TrimStart(SwapSeparators(s)) == SwapSeparators(TrimStart(s))
  {
    var w := SwapSeparators(s);
    if s != [] {
      assert w[1..] == SwapSeparators(s[1..]);
      assert IsSpace(w[0]) <==> IsSpace(s[0]);
      if IsSpace(s[0]) {
        TrimStartSwap(s[1..]);
      }
    }
  }

  lemma {:induction false} TrimEndSwap(s: string)
    ensures TrimEnd(SwapSeparators(s)) == SwapSeparators(TrimEnd(s))
  {
    var w := SwapSeparators(s);
    if s != [] {
      assert w[..|w| - 1] == SwapSeparators(s[..|s| - 1]);
      assert IsSpace(w[|w| - 1]) <==> IsSpace(s[|s| - 1]);
      if IsSpace(s[|s| - 1]) {
        TrimEndSwap(s[..|s| - 1]);
      }
    }
  }

  lemma {:induction false} StripSwap(s: string)
    ensures Strip(SwapSeparators(s)) == SwapSeparators(Strip(s))
  {
    TrimStartSwap(s);
    TrimEndSwap(TrimStart(s));
  }
}
