/**
  `_ensure_string(template, **kwargs)`, which is `template.format(**kwargs)`:
  named `{field}` placeholders are replaced by their values, `{{` and `}}`
  stand for single braces, and a field with no value or a brace with no
  partner is an error.
 */
module Template {
  import opened Results
  import opened Text

  /** Prefixes the text of a successful rendering. */
  function Prepend(p: string, r: Result<string>): (q: Result<string>)
    ensures q.Ok? <==> r.Ok?
    ensures q.Ok? ==> q.value == p + r.value
    ensures q.Err? ==> q.error == r.error
  {
    match r
    case Ok(v) => Ok(p + v)
    case Err(e) => Err(e)
  }

  /** `t.format(**args)`, left to right; the first problem met is the error. */
  function Format(t: string, args: map<string, string>): (r: Result<string>)
    ensures r.Err? ==> r.error == MalformedTemplate || (r.error.UnknownPlaceholder? && r.error.name !in args)
    decreases |t|
  {
    if t == [] then Ok([])
    else if t[0] == '{' && |t| > 1 && t[1] == '{' then Prepend("{", Format(t[2..], args))
    else if t[0] == '}' && |t| > 1 && t[1] == '}' then Prepend("}", Format(t[2..], args))
    else if t[0] == '}' then Err(MalformedTemplate)
    else if t[0] == '{' then
      match IndexOf(t[1..], "}")
      case None => Err(MalformedTemplate)
      case Some(j) =>
        var name := t[1..1 + j];
        if name in args then Prepend(args[name], Format(t[j + 2..], args))
        else Err(UnknownPlaceholder(name))
    else Prepend([t[0]], Format(t[1..], args))
  }

  /** The field names of `t` in order, or None when its braces do not pair up. */
  function Placeholders(t: string): Option<seq<string>>
    decreases |t|
  {
    if t == [] then Some([])
    else if (t[0] == '{' || t[0] == '}') && |t| > 1 && t[1] == t[0] then Placeholders(t[2..])
    else if t[0] == '}' then None
    else if t[0] == '{' then
      match IndexOf(t[1..], "}")
      case None => None
      case Some(j) =>
        match Placeholders(t[j + 2..])
        case None => None
        case Some(names) => Some([t[1..1 + j]] + names)
    else Placeholders(t[1..])
  }

  predicate NoBraces(t: string) {
    '{' !in t && '}' !in t
  }

  /** Rendering succeeds exactly when the braces pair up and every field has a value. */
  lemma {:induction false} FormatOkIff(t: string, args: map<string, string>)
    ensures Format(t, args).Ok? <==>
      Placeholders(t).Some? && forall k :: 0 <= k < |Placeholders(t).value| ==> Placeholders(t).value[k] in args
    decreases |t|
  {
    if t == [] {
    } else if t[0] == '{' && |t| > 1 && t[1] == '{' {
      FormatOkIff(t[2..], args);
    } else if t[0] == '}' && |t| > 1 && t[1] == '}' {
      FormatOkIff(t[2..], args);
    } else if t[0] == '}' {
    } else if t[0] == '{' {
      match IndexOf(t[1..], "}")
      case None =>
      case Some(j) =>
        FormatOkIff(t[j + 2..], args);
        match Placeholders(t[j + 2..])
        case None =>
        case Some(names) =>
          var all := [t[1..1 + j]] + names;
          assert Placeholders(t).value == all;
          assert all[0] == t[1..1 + j];
          assert forall k :: 0 < k < |all| ==> all[k] == names[k - 1];
          if all[0] in args {
            assert Format(t, args) == Prepend(args[all[0]], Format(t[j + 2..], args));
            assert (forall k :: 0 <= k < |all| ==> all[k] in args) <==>
                   (forall k :: 0 <= k < |names| ==> names[k] in args) by {
              forall k | 0 <= k < |names| ensures all[k + 1] == names[k] { }
            }
          } else {
            assert Format(t, args) == Err(UnknownPlaceholder(all[0]));
          }
    } else {
      FormatOkIff(t[1..], args);
    }
  }

  /** Whether rendering succeeds depends only on which fields have values, not on the values. */
  lemma FormatOkSameKeys(t: string, a: map<string, string>, b: map<string, string>)
    requires a.Keys == b.Keys
    ensures Format(t, a).Ok? == Format(t, b).Ok?
  {
    FormatOkIff(t, a);
    FormatOkIff(t, b);
  }

  /** Text without braces passes through unchanged ahead of whatever follows it. */
  lemma {:induction false} FormatLiteralPrefix(p: string, t: string, args: map<string, string>)
    requires NoBraces(p)
    ensures Format(p + t, args) == Prepend(p, Format(t, args))
  {
    if p == [] {
      assert p + t == t;
      match Format(t, args)
      case Ok(v) =>
        assert p + v == v;
      case Err(e) =>
    } else {
      assert (p + t)[0] == p[0];
      assert (p + t)[1..] == p[1..] + t;
      FormatLiteralPrefix(p[1..], t, args);
      assert p[1..] + t == (p + t)[1..];
      assert [p[0]] + p[1..] == p;
      match Format(t, args)
      case Ok(v) =>
        assert [p[0]] + (p[1..] + v) == p + v;
      case Err(e) =>
    }
  }

  /** Text without braces renders as itself. */
  lemma FormatLiteral(p: string, args: map<string, string>)
    requires NoBraces(p)
    ensures Format(p, args) == Ok(p)
  {
    FormatLiteralPrefix(p, [], args);
    assert p + [] == p;
  }
  /** In `{n}` followed by `t`, the closing brace is the first after the opening one. */
  lemma FieldSplit(n: string, t: string)
    requires NoBraces(n)
    ensures var u := "{" + n + "}" + t;
      && u[0] == '{' && |u| > 1 && u[1] != '{'
      && IndexOf(u[1..], "}") == Some(|n|) && u[1..1 + |n|] == n && u[|n| + 2..] == t
  {
    var u := "{" + n + "}" + t;
    assert u[1..] == n + "}" + t;
    assert OccursAt(u[1..], "}", |n|) by {
      assert u[1..][|n|..|n| + 1] == "}";
    }
    IndexOfFromLeftmost(u[1..], "}", 0);
    forall i | 0 <= i < |n| ensures !OccursAt(u[1..], "}", i) {
      assert u[1..][i] == n[i];
    }
    assert u[1] != '{' by {
      if n != [] {
        assert u[1] == n[0];
      }
    }
  }

  /** A field `{n}` is replaced by the value supplied for `n`, and the rest is formatted after it. */
  lemma FormatField(n: string, t: string, args: map<string, string>)
    requires NoBraces(n) && n in args
    ensures Format("{" + n + "}" + t, args) == Prepend(args[n], Format(t, args))
  {
    FieldSplit(n, t);
  }

  /** A field whose name was not supplied stops formatting with that name (the `KeyError`). */
  lemma FormatUnknownField(n: string, t: string, args: map<string, string>)
    requires NoBraces(n) && n !in args
    ensures Format("{" + n + "}" + t, args) == Err(UnknownPlaceholder(n))
  {
    FieldSplit(n, t);
  }

  /** `{{` and `}}` stand for a single literal brace. */
  lemma FormatEscapes(t: string, args: map<string, string>)
    ensures Format("{{" + t, args) == Prepend("{", Format(t, args))
    ensures Format("}}" + t, args) == Prepend("}", Format(t, args))
  {
    assert ("{{" + t)[2..] == t;
    assert ("}}" + t)[2..] == t;
  }
}
