/** The small request handlers of the plugin's main class: the edit form's
    `datastr` parser, the custom persona page template, the link an edit
    page gives a new person, the page-menu filter and the query variables. */
module Handlers {
  import opened Wrappers
  import opened Php
  import opened Settings

  // ---------------------------------------------------------------------
  // The `datastr` parser of `rp_action_callback`
  // ---------------------------------------------------------------------

  /** `explode('=', $p)` read as a form field: the text before the first
      '=' names it, the text between the first and the second '=' is its
      value, and a piece without '=' has the empty value. */
  function Field(p: string): (kv: (string, string))
    ensures !Contains(kv.0, "=") && !Contains(kv.1, "=")
    ensures '=' !in p ==> kv == (p, "")
  {
    var pair := Explode("=", p);
    ExplodePiecesFree("=", p);
    var kv := (pair[0], if |pair| > 1 then pair[1] else "");
    if '=' in p then kv else ExplodeFree("=", p); kv
  }

  /** The form the loop builds from the pieces `parms`: each piece in turn
      sets its field, so a later piece overrides an earlier one. */
  function FormOf(parms: seq<string>): map<string, string>
    decreases |parms|
  {
    if parms == [] then map[]
    else
      var kv := Field(parms[|parms| - 1]);
      FormOf(parms[..|parms| - 1])[kv.0 := kv.1]
  }

  /** The `datastr` of a form post, already URL-decoded, split at '&' and
      read piece by piece into the field map. */
  method ParseDatastr(data: string) returns (form: map<string, string>)
    ensures form == FormOf(Explode("&", data))
  {
    var parms := Explode("&", data);
    form := map[];
    for i := 0 to |parms|
      invariant form == FormOf(parms[..i])
    {
      var pair := Explode("=", parms[i]);
      form := form[pair[0] := if |pair| > 1 then pair[1] else ""];
      assert parms[..i + 1][..i] == parms[..i];
    }
    assert parms[..|parms|] == parms;
  }

  /** The form has a field exactly for the names some piece gives. */
  lemma {:induction false} FormKeys(parms: seq<string>)
    ensures forall k :: k in FormOf(parms) <==> exists i :: 0 <= i < |parms| && Field(parms[i]).0 == k
    decreases |parms|
  {
    if parms != [] {
      var init := parms[..|parms| - 1];
      FormKeys(init);
      forall k | k in FormOf(parms) ensures exists i :: 0 <= i < |parms| && Field(parms[i]).0 == k {
        if k != Field(parms[|parms| - 1]).0 {
          assert k in FormOf(init);
          var i :| 0 <= i < |init| && Field(init[i]).0 == k;
          assert parms[i] == init[i];
        }
      }
      forall k | exists i :: 0 <= i < |parms| && Field(parms[i]).0 == k ensures k in FormOf(parms) {
        var i :| 0 <= i < |parms| && Field(parms[i]).0 == k;
        if i < |init| {
          assert init[i] == parms[i];
        }
      }
    }
  }

  /** A field holds the value of the last piece that names it. */
  lemma {:induction false} FormLastWins(parms: seq<string>, i: nat)
    requires i < |parms|
    requires forall j :: i < j < |parms| ==> Field(parms[j]).0 != Field(parms[i]).0
    ensures Field(parms[i]).0 in FormOf(parms)
    ensures FormOf(parms)[Field(parms[i]).0] == Field(parms[i]).1
    decreases |parms|
  {
    var init := parms[..|parms| - 1];
    if i < |init| {
      assert init[i] == parms[i];
      forall j | i < j < |init| ensures Field(init[j]).0 != Field(init[i]).0 {
        assert init[j] == parms[j];
      }
      FormLastWins(init, i);
    }
  }

  /** A piece `k=v` whose name and value hold no '=' reads back as that field. */
  lemma FieldOfPair(k: string, v: string)
    requires '=' !in k && '=' !in v
    ensures Field(k + "=" + v) == (k, v)
  {
    ExplodeFront("=", k, v);
    ExplodeFree("=", v);
  }

  /** Only the text between the first and the second '=' is kept: a value
      holding '=' is cut there. */
  lemma FieldCutsValue(k: string, v: string, w: string)
    requires '=' !in k && '=' !in v
    ensures Field(k + "=" + v + "=" + w) == (k, v)
  {
    ExplodeFront("=", k, v + "=" + w);
    ExplodeFront("=", v, w);
    assert k + "=" + v + "=" + w == k + "=" + (v + "=" + w);
  }

  /** An empty `datastr` still yields one field: the empty name with the empty value. */
  lemma EmptyDatastr()
    ensures FormOf(Explode("&", "")) == map["" := ""]
  {
    assert Explode("&", "") == [""];
    assert Explode("=", "") == [""];
  }

  /** The `k=v&k=v…` text a client sends for the name/value pairs `pairs`. */
  function Encode(pairs: seq<(string, string)>): string
    requires |pairs| >= 1
  {
    Implode("&", Pieces(pairs))
  }

  function Pieces(pairs: seq<(string, string)>): (ps: seq<string>)
    ensures |ps| == |pairs|
  {
    seq(|pairs|, i requires 0 <= i < |pairs| => pairs[i].0 + "=" + pairs[i].1)
  }

  /** Names and values free of '&' and '=' survive the trip through the
      parser: the form has exactly the names sent, each with the value of
      its last occurrence. */
  lemma DatastrRoundTrip(pairs: seq<(string, string)>)
    requires |pairs| >= 1
    requires forall i :: 0 <= i < |pairs| ==>
      '&' !in pairs[i].0 && '&' !in pairs[i].1 && '=' !in pairs[i].0 && '=' !in pairs[i].1
    ensures var form := FormOf(Explode("&", Encode(pairs)));
      && (forall k :: k in form <==> exists i :: 0 <= i < |pairs| && pairs[i].0 == k)
      && (forall i :: 0 <= i < |pairs| && (forall j :: i < j < |pairs| ==> pairs[j].0 != pairs[i].0) ==>
            pairs[i].0 in form && form[pairs[i].0] == pairs[i].1)
  {
    var ps := Pieces(pairs);
    forall i | 0 <= i < |ps| ensures '&' !in ps[i] && Field(ps[i]) == pairs[i] {
      FieldOfPair(pairs[i].0, pairs[i].1);
    }
    ExplodeImplode("&", ps);
    FormKeys(ps);
    forall i | 0 <= i < |pairs| && (forall j :: i < j < |pairs| ==> pairs[j].0 != pairs[i].0)
      ensures pairs[i].0 in FormOf(ps) && FormOf(ps)[pairs[i].0] == pairs[i].1
    {
      FormLastWins(ps, i);
    }
  }

  // ---------------------------------------------------------------------
  // The custom persona page of `persona_handler`
  // ---------------------------------------------------------------------

  /** `$atts['personid']`, treated as absent when missing or loosely equal to '0'. */
  function PersonaId(atts: map<string, string>): (id: Option<string>)
    ensures id.Some? <==> "personid" in atts && !LooselyEqualsInt(atts["personid"], 0)
    ensures id.Some? ==> id.value == atts["personid"]
  {
    if "personid" in atts && !LooselyEqualsInt(atts["personid"], 0) then Some(atts["personid"]) else None
  }

  /** `$atts[name]`, or `default` when the attribute is missing. */
  function AttOr(atts: map<string, string>, name: string, default: string): string {
    if name in atts then atts[name] else default
  }

  /** The three placeholders of a custom page replaced in turn, each at all
      of its occurrences. */
  function FillTemplate(template: string, personId: string, batchId: string, picture: string): string {
    var a := ReplaceAll(template, "{%personid%}", personId);
    var b := ReplaceAll(a, "{%batchid%}", batchId);
    ReplaceAll(b, "{%picfile1%}", picture)
  }

  /** PHP's `empty` of an option value. */
  predicate EmptyValue(v: Value) {
    match v
    case Str(s) => !Truthy(s)
    case Int(i) => i == 0
  }

  /** What the persona shortcode produces, before shortcodes in it run. */
  datatype Page =
    | InvalidPerson                              // the "Invalid person id." notice
    | Template(text: string)                     // the filled custom page template
    | BuiltPage(personId: string, batchId: string)  // the page builder's output

  /** `empty($callback) || strtolower($callback) == 'rootspersona'`: the
      shortcode is the plain persona one. */
  predicate PlainCallback(callback: Option<string>) {
    callback.None? || !Truthy(callback.value) || Lower(callback.value) == "rootspersona"
  }

  /** `persona_handler`: no person without a usable id; the stored custom
      page when the shortcode is the plain persona one and a custom page is
      set, with its entities decoded and its placeholders filled; otherwise
      the page builder. `defaultPicture` is the plugin's silhouette URL. */
  function PersonaPage(atts: map<string, string>, callback: Option<string>,
                       options: map<Key, Value>, defaultPicture: string): (page: Page)
    ensures page.InvalidPerson? <==> "personid" !in atts || LooselyEqualsInt(atts["personid"], 0)
    ensures page.Template? <==>
      && PersonaId(atts).Some? && PlainCallback(callback)
      && Text(CustomPage) in options && !EmptyValue(options[Text(CustomPage)])
    ensures page.Template? ==>
      page.text == FillTemplate(HtmlDecode(ValueText(options[Text(CustomPage)])), atts["personid"],
                                AttOr(atts, "batchid", "1"), AttOr(atts, "picfile1", defaultPicture))
    ensures page.BuiltPage? ==> page.personId == atts["personid"]
    ensures page.BuiltPage? ==> page.batchId == if "batchid" in atts then atts["batchid"] else "1"
  {
    match PersonaId(atts)
    case None => InvalidPerson
    case Some(id) =>
      var batchId := AttOr(atts, "batchid", "1");
      var custom := Text(CustomPage);
      if PlainCallback(callback) && custom in options && !EmptyValue(options[custom]) then
        var picture := AttOr(atts, "picfile1", defaultPicture);
        Template(FillTemplate(HtmlDecode(ValueText(options[custom])), id, batchId, picture))
      else BuiltPage(id, batchId)
  }

  /** A custom page typed without surrounding blanks and saved by the
      validator is shown as the typed text reads once its entities are
      decoded: escaping on save keeps the entities typed and decoding on
      display reads them, so a text without '&' is shown exactly as typed. */
  lemma CustomPageAsTyped(atts: map<string, string>, input: Input,
                          options: map<Key, Value>, defaultPicture: string)
    requires SavedSection(Sanitise(input), options, Custom)
    requires Trimmed(Posted(input, Text(CustomPage))) && Truthy(Posted(input, Text(CustomPage)))
    requires !Contains(HtmlDecode(Posted(input, Text(CustomPage))), "{%personid%}")
    requires !Contains(HtmlDecode(Posted(input, Text(CustomPage))), "{%batchid%}")
    requires !Contains(HtmlDecode(Posted(input, Text(CustomPage))), "{%picfile1%}")
    requires "personid" in atts && !LooselyEqualsInt(atts["personid"], 0)
    ensures PersonaPage(atts, None, options, defaultPicture) == Template(HtmlDecode(Posted(input, Text(CustomPage))))
    ensures '&' !in Posted(input, Text(CustomPage)) ==>
      PersonaPage(atts, None, options, defaultPicture) == Template(Posted(input, Text(CustomPage)))
  {
    var typed := Posted(input, Text(CustomPage));
    assert options[Text(CustomPage)] == Str(Clean(typed));
    CleanDecodes(typed);
    FillTemplateAbsent(HtmlDecode(typed), atts["personid"], AttOr(atts, "batchid", "1"), AttOr(atts, "picfile1", defaultPicture));
    if '&' !in typed {
      HtmlDecodePlain(typed);
    }
  }

  /** A typed text without surrounding blanks reads, from its saved and
      escaped form, as the typed text itself reads, and stays non-empty. */
  lemma CleanDecodes(typed: string)
    requires Trimmed(typed) && Truthy(typed)
    ensures HtmlDecode(Clean(typed)) == HtmlDecode(typed) && Truthy(Clean(typed))
  {
    EscAttrTrimmed(typed);
    TrimOfTrimmed(EscAttr(typed));
    HtmlDecodeEscAttr(typed);
    EscAttrTruthy(typed);
  }

  /** A template without placeholders is left as it is. */
  lemma FillTemplateAbsent(template: string, personId: string, batchId: string, picture: string)
    requires !Contains(template, "{%personid%}")
    requires !Contains(template, "{%batchid%}")
    requires !Contains(template, "{%picfile1%}")
    ensures FillTemplate(template, personId, batchId, picture) == template
  {
    ReplaceAllAbsent(template, "{%personid%}", personId);
    ReplaceAllAbsent(template, "{%batchid%}", batchId);
    ReplaceAllAbsent(template, "{%picfile1%}", picture);
  }

  /** `esc_attr` of a text without surrounding blanks has none either. */
  lemma EscAttrTrimmed(s: string)
    requires Trimmed(s)
    ensures Trimmed(EscAttr(s))
  {
    if s != [] {
      EscAttrEnds(s);
    }
  }

  /** An entity begins with '&' and ends with ';'. */
  lemma EscCharEnds(c: char)
    requires IsHtmlSpecial(c)
    ensures |EscChar(c)| >= 4 && EscChar(c)[0] == '&' && EscChar(c)[|EscChar(c)| - 1] == ';'
  {
  }

  /** `esc_attr` begins with what the first character or entity becomes and
      ends with what the last one becomes; neither end of an entity is a
      blank. */
  lemma {:induction false} EscAttrEnds(s: string)
    requires s != []
    ensures EscAttr(s) != []
    ensures !IsTrimChar(s[0]) ==> !IsTrimChar(EscAttr(s)[0])
    ensures !IsTrimChar(s[|s| - 1]) ==> !IsTrimChar(EscAttr(s)[|EscAttr(s)| - 1])
    decreases |s|
  {
    var (c, n) := if EntityAt(s).Some? then EntityAt(s).value else (s[0], 1);
    var e, rest := EscChar(c), s[n..];
    assert EscAttr(s) == e + EscAttr(rest);
    if IsHtmlSpecial(c) {
      EscCharEnds(c);
    }
    if rest != [] {
      EscAttrEnds(rest);
      assert rest[|rest| - 1] == s[|s| - 1];
    }
  }

  /** A truthy text stays truthy through `esc_attr`. */
  lemma EscAttrTruthy(s: string)
    requires Truthy(s)
    ensures Truthy(EscAttr(s))
  {
    if |s| == 1 {
      assert EntityAt(s).None?;
      assert s[1..] == [] && EscAttr(s) == EscChar(s[0]);
    } else {
      EscAttrLength(s);
    }
  }

  lemma {:induction false} EscAttrLength(s: string)
    ensures |EscAttr(s)| >= |s|
    decreases |s|
  {
    if s != [] {
      match EntityAt(s)
      case Some((c, n)) => EscAttrLength(s[n..]);
      case None => EscAttrLength(s[1..]);
    }
  }

  /** The placeholders are replaced in turn, each over the text the
      previous replacement left: the page is the template split at every
      person id placeholder and joined with the id, then split and joined
      for the batch id and then for the picture, so a person id holding a
      later placeholder has that one filled in as well. */
  lemma PlaceholderOrder(template: string, personId: string, batchId: string, picture: string)
    ensures FillTemplate(template, personId, batchId, picture) ==
      Implode(picture, Explode("{%picfile1%}",
        Implode(batchId, Explode("{%batchid%}",
          Implode(personId, Explode("{%personid%}", template))))))
  {
    var a := ReplaceAll(template, "{%personid%}", personId);
    var b := ReplaceAll(a, "{%batchid%}", batchId);
    ReplaceAllIsImplodeExplode(template, "{%personid%}", personId);
    ReplaceAllIsImplodeExplode(a, "{%batchid%}", batchId);
    ReplaceAllIsImplodeExplode(b, "{%picfile1%}", picture);
  }

  // ---------------------------------------------------------------------
  // The new-person link of `edit_persona_page_handler`
  // ---------------------------------------------------------------------

  /** `trim(esc_attr($_GET[name]))`, or '' when the parameter is missing. */
  function Param(get: map<string, string>, name: string): string {
    if name in get then Clean(get[name]) else ""
  }

  /** `$sseq == '1' ? '2' : '1'`: the new spouse takes the other of the two
      spouse positions. */
  function FlipSseq(sseq: string): (r: string)
    ensures r == "1" || r == "2"
    ensures r == "2" <==> LooselyEqualsInt(sseq, 1)
  {
    if LooselyEqualsInt(sseq, 1) then "2" else "1"
  }

  /** Flipping twice settles on '1' exactly for a position that reads as
      1 and on '2' for any other, so it gives back each of the two
      positions. */
  lemma FlipSseqTwice(sseq: string)
    ensures FlipSseq(FlipSseq(sseq)) == if LooselyEqualsInt(sseq, 1) then "1" else "2"
  {
    IntegerValueOfIntToString(1);
    assert IntToString(1) == "1";
    assert IntegerValue("2") == Some(2) by {
      IntegerValueOfIntToString(2);
      assert IntToString(2) == "2";
    }
  }

  /** How a person created from the edit page is attached. */
  datatype Link =
    | AsChild(famc: string)                             // child of family `famc`
    | AsSpouse(fams: string, spouse: string, sseq: string)  // spouse in family `fams`
    | AsParent(child: string, sseq: string)             // parent of `child`; family -1, none yet
    | Unattached

  /** The `famc` parameter wins over `fams`, which wins over `child`; a
      spouse or parent takes the spouse position opposite to `sseq`. */
  function NewPersonLink(get: map<string, string>): (l: Link)
    ensures l.AsChild? <==> Param(get, "famc") != ""
    ensures l.AsSpouse? <==> Param(get, "famc") == "" && Param(get, "fams") != ""
    ensures l.AsParent? <==> Param(get, "famc") == "" && Param(get, "fams") == "" && Param(get, "child") != ""
    ensures (l.AsSpouse? || l.AsParent?) ==> l.sseq == FlipSseq(Param(get, "sseq"))
  {
    var famc := Param(get, "famc");
    var fams := Param(get, "fams");
    var child := Param(get, "child");
    var sseq := Param(get, "sseq");
    var spouse := Param(get, "spouse");
    if famc != "" then AsChild(famc)
    else if fams != "" then AsSpouse(fams, spouse, FlipSseq(sseq))
    else if child != "" then AsParent(child, FlipSseq(sseq))
    else Unattached
  }

  // ---------------------------------------------------------------------
  // `person_menu_filter` and `parameter_queryvars`
  // ---------------------------------------------------------------------

  /** An option value as PHP's string concatenation renders it. */
  function ValueText(v: Value): string {
    match v
    case Str(s) => s
    case Int(i) => IntToString(i)
  }

  /** `person_menu_filter`: with a parent page set, the page list excludes
      its tree, added to any exclusion already there. */
  function MenuFilter(args: map<string, string>, options: map<Key, Value>): (r: map<string, string>)
    ensures forall k :: k != "exclude_tree" ==> (k in r <==> k in args) && (k in args ==> r[k] == args[k])
    ensures ParentPage !in options ==> r == args
    ensures ParentPage in options ==> "exclude_tree" in r
  {
    if ParentPage in options then
      var page := ValueText(options[ParentPage]);
      if "exclude_tree" in args then args["exclude_tree" := args["exclude_tree"] + "," + page]
      else args["exclude_tree" := page]
    else args
  }

  /** With a validated parent page id, the comma-separated exclusion list
      gains exactly that id as its last entry, and it reads back as the id. */
  lemma MenuFilterExcludes(args: map<string, string>, options: map<Key, Value>)
    requires Validated(options)
    ensures var r := MenuFilter(args, options);
      var page := IntToString(options[ParentPage].i);
      && Explode(",", r["exclude_tree"]) ==
           (if "exclude_tree" in args then Explode(",", args["exclude_tree"]) else []) + [page]
      && Intval(page) == options[ParentPage].i
  {
    var page := IntToString(options[ParentPage].i);
    NoCommaInIntToString(options[ParentPage].i);
    if "exclude_tree" in args {
      ExplodeBack(",", args["exclude_tree"], page);
    } else {
      ExplodeFree(",", page);
    }
    IntvalOfIntToString(options[ParentPage].i);
  }

  /** The decimal rendering of an integer holds no comma. */
  lemma NoCommaInIntToString(i: int)
    ensures ',' !in IntToString(i)
  {
    var m: nat := if i < 0 then -i else i;
    var digits := NatToString(m);
    assert forall k :: 0 <= k < |digits| ==> IsDigit(digits[k]);
    if i < 0 {
      assert IntToString(i) == "-" + digits;
    }
  }

  /** `parameter_queryvars`: the two query variables the plugin reads are
      added after the ones WordPress already knows. */
  function QueryVars(qvars: seq<string>): (r: seq<string>)
    ensures |r| == |qvars| + 2 && r[..|qvars|] == qvars
    ensures "rootsvar" in r && "override-surname" in r
    ensures forall v :: v in r <==> v in qvars || v == "rootsvar" || v == "override-surname"
  {
    qvars + ["rootsvar", "override-surname"]
  }
}
