/** The plugin's settings validator: the submitted settings form is mapped
    onto the stored option array, every field forced into its closed set
    of values, and the option keys the form does not own kept as they were. */
module Settings {
  import opened Wrappers
  import opened Php

  /** The plugin version written into every saved option array. */
  const PersonaVersion := "3.7.6"

  /** An option value: the validator stores strings and integers. */
  datatype Value = Str(s: string) | Int(i: int)

  /** The colour, image, style and page fields, stored escaped and trimmed. */
  datatype TextField =
    | IndexEvenColor | IndexOddColor | IndexHdrColor
    | BannerBcolor | BannerFcolor | BannerImage
    | GroupBcolor | GroupFcolor | GroupImage | PframeColor
    | CustomStyle | CustomPage

  /** The section switches, stored as 1 exactly when the field equals 1. */
  datatype HideField =
    | HideHeader | HideFacts | HideBio | HideAncestors | HideDescendancy
    | HideFamilyC | HideFamilyS | HideEvidence | HidePictures
    | HideEditLinks | HideUndefPics | HideDates | HidePlaces

  /** The check boxes, stored as 1 exactly when the field is sent and true. */
  datatype CheckField = HideDonation | IsEditor | Debug | PostPage

  /** The keys of the option array: the ones the validator writes, and any
      other key, which it leaves alone. */
  datatype Key =
    | Version | ParentPage | PerPage | SystemOfRecord | HeaderStyle
    | PrivacyDefault | PrivacyLiving
    | Text(t: TextField) | Hide(h: HideField) | Check(c: CheckField)
    | Other(name: string)

  function TextName(f: TextField): string {
    match f
    case IndexEvenColor => "index_even_color"
    case IndexOddColor => "index_odd_color"
    case IndexHdrColor => "index_hdr_color"
    case BannerBcolor => "banner_bcolor"
    case BannerFcolor => "banner_fcolor"
    case BannerImage => "banner_image"
    case GroupBcolor => "group_bcolor"
    case GroupFcolor => "group_fcolor"
    case GroupImage => "group_image"
    case PframeColor => "pframe_color"
    case CustomStyle => "custom_style"
    case CustomPage => "custom_page"
  }

  function HideName(f: HideField): string {
    match f
    case HideHeader => "hide_header"
    case HideFacts => "hide_facts"
    case HideBio => "hide_bio"
    case HideAncestors => "hide_ancestors"
    case HideDescendancy => "hide_descendancy"
    case HideFamilyC => "hide_family_c"
    case HideFamilyS => "hide_family_s"
    case HideEvidence => "hide_evidence"
    case HidePictures => "hide_pictures"
    case HideEditLinks => "hide_edit_links"
    case HideUndefPics => "hide_undef_pics"
    case HideDates => "hide_dates"
    case HidePlaces => "hide_places"
  }

  function CheckName(f: CheckField): string {
    match f
    case HideDonation => "hide_donation"
    case IsEditor => "is_editor"
    case Debug => "debug"
    case PostPage => "post_page"
  }

  /** The name of a key in the PHP array and in the submitted form. */
  function Name(k: Key): string {
    match k
    case Version => "version"
    case ParentPage => "parent_page"
    case PerPage => "per_page"
    case SystemOfRecord => "is_system_of_record"
    case HeaderStyle => "header_style"
    case PrivacyDefault => "privacy_default"
    case PrivacyLiving => "privacy_living"
    case Text(f) => TextName(f)
    case Hide(f) => HideName(f)
    case Check(f) => CheckName(f)
    case Other(n) => n
  }

  /** The keys the validator writes. */
  predicate Owned(k: Key) {
    !k.Other?
  }

  /** The submitted form fields; the form's field names are the option
      keys'. A field the form did not send reads as PHP's null, which
      every expression below treats as it treats "". */
  type Input = map<Key, string>

  function Posted(input: Input, key: Key): string {
    if key in input then input[key] else ""
  }

  const PrivacyDefaults: set<string> := {"Pub", "Pvt", "Mbr"}
  const PrivacyLivingChoices: set<string> := {"Pub", "Pvt", "Mbr", "Exc"}

  // ---------------------------------------------------------------------
  // One field each
  // ---------------------------------------------------------------------

  /** `trim(esc_attr(s))`. */
  function Clean(s: string): string {
    Trim(EscAttr(s))
  }

  /** A cleaned text has no markup characters and no surrounding blanks. */
  lemma CleanIsClean(s: string)
    ensures Trimmed(Clean(s))
    ensures forall i :: 0 <= i < |Clean(s)| ==> Clean(s)[i] !in {'<', '>', '"', '\''}
  {
    var e := EscAttr(s);
    var j := TrimSlice(e);
    forall i | 0 <= i < |Clean(s)| ensures Clean(s)[i] !in {'<', '>', '"', '\''} {
      assert Clean(s)[i] == e[j + i];
    }
  }

  /** A text field as saved. */
  function TextValue(input: Input, f: TextField): Value {
    Str(Clean(Posted(input, Text(f))))
  }

  /** `intval($input[key])`. */
  function IntValue(input: Input, k: Key): Value {
    Int(Intval(Posted(input, k)))
  }

  /** `$input['is_system_of_record'] == 'true' ? 1 : 0`. */
  function SystemOfRecordValue(input: Input): Value {
    if Posted(input, SystemOfRecord) == "true" then Int(1) else Int(0)
  }

  /** `$input['header_style'] == 2 ? 2 : 1`. */
  function HeaderStyleValue(input: Input): Value {
    if LooselyEqualsInt(Posted(input, HeaderStyle), 2) then Int(2) else Int(1)
  }

  /** `$input[key] == 1 ? 1 : 0`. */
  function HideValue(input: Input, f: HideField): Value {
    if LooselyEqualsInt(Posted(input, Hide(f)), 1) then Int(1) else Int(0)
  }

  /** `isset($input[key]) && $input[key] == true ? 1 : 0`. */
  function CheckValue(input: Input, f: CheckField): Value {
    if Check(f) in input && Truthy(input[Check(f)]) then Int(1) else Int(0)
  }

  /** `in_array($input[key], allowed) ? $input[key] : default`. */
  function OneOf(input: Input, k: Key, allowed: set<string>, default: string): Value {
    if Posted(input, k) in allowed then Str(Posted(input, k)) else Str(default)
  }

  /** The system-of-record flag is 0 or 1, and 1 only for the exact string "true". */
  lemma SystemOfRecordFlag(input: Input)
    ensures SystemOfRecordValue(input) == Int(0) || SystemOfRecordValue(input) == Int(1)
    ensures SystemOfRecordValue(input) == Int(1) <==> Posted(input, SystemOfRecord) == "true"
  {
  }

  /** The header style is 1 or 2, and 2 exactly when the field reads as the integer 2. */
  lemma HeaderStyleChoice(input: Input)
    ensures HeaderStyleValue(input) == Int(1) || HeaderStyleValue(input) == Int(2)
    ensures HeaderStyleValue(input) == Int(2) <==> LooselyEqualsInt(Posted(input, HeaderStyle), 2)
  {
  }

  /** A section switch is 0 or 1, and 1 exactly when the field reads as the integer 1. */
  lemma HideFlag(input: Input, f: HideField)
    ensures HideValue(input, f) == Int(0) || HideValue(input, f) == Int(1)
    ensures HideValue(input, f) == Int(1) <==> LooselyEqualsInt(Posted(input, Hide(f)), 1)
  {
  }

  /** A check box is 0 or 1, and 1 exactly when it was sent with a true value. */
  lemma CheckFlag(input: Input, f: CheckField)
    ensures CheckValue(input, f) == Int(0) || CheckValue(input, f) == Int(1)
    ensures CheckValue(input, f) == Int(1) <==> Check(f) in input && Truthy(input[Check(f)])
  {
  }

  /** A closed choice keeps an allowed value and replaces anything else by the default. */
  lemma OneOfChoice(input: Input, k: Key, allowed: set<string>, default: string)
    requires default in allowed
    ensures OneOf(input, k, allowed, default).Str? && OneOf(input, k, allowed, default).s in allowed
    ensures Posted(input, k) in allowed ==> OneOf(input, k, allowed, default) == Str(Posted(input, k))
    ensures Posted(input, k) !in allowed ==> OneOf(input, k, allowed, default) == Str(default)
  {
  }

  /** `trim(esc_attr('3.7.6'))`, the saved version: the plain version number. */
  function VersionValue(): (v: Value)
    ensures v == Str(PersonaVersion)
  {
    EscAttrPlain(PersonaVersion);
    TrimOfTrimmed(PersonaVersion);
    Str(Clean(PersonaVersion))
  }

  // ---------------------------------------------------------------------
  // The validator
  // ---------------------------------------------------------------------

  /** Every value the validator derives from the submitted form, one per
      owned key. */
  datatype Form = Form(
    version: Value, parentPage: Value, perPage: Value, systemOfRecord: Value,
    texts: TextField -> Value, headerStyle: Value, switches: HideField -> Value,
    checks: CheckField -> Value, privacyDefault: Value, privacyLiving: Value)

  /** The right-hand sides of the validator's assignments. */
  function Sanitise(input: Input): Form {
    Form(
      VersionValue(), IntValue(input, ParentPage), IntValue(input, PerPage),
      SystemOfRecordValue(input),
      f => TextValue(input, f), HeaderStyleValue(input), f => HideValue(input, f),
      f => CheckValue(input, f),
      OneOf(input, PrivacyDefault, PrivacyDefaults, "Pub"),
      OneOf(input, PrivacyLiving, PrivacyLivingChoices, "Mbr"))
  }

  /** What every sanitised form satisfies, whatever was submitted. */
  ghost predicate InRange(v: Form) {
    && v.version == Str(PersonaVersion)
    && v.parentPage.Int? && InInt64(v.parentPage.i)
    && v.perPage.Int? && InInt64(v.perPage.i)
    && (v.systemOfRecord == Int(0) || v.systemOfRecord == Int(1))
    && (v.headerStyle == Int(1) || v.headerStyle == Int(2))
    && (forall f :: v.texts(f).Str?)
    && (forall f :: v.switches(f) == Int(0) || v.switches(f) == Int(1))
    && (forall f :: v.checks(f) == Int(0) || v.checks(f) == Int(1))
    && v.privacyDefault.Str? && v.privacyDefault.s in PrivacyDefaults
    && v.privacyLiving.Str? && v.privacyLiving.s in PrivacyLivingChoices
  }

  /** Whatever was submitted, every sanitised value is in its closed range. */
  lemma SanitiseInRange(input: Input)
    ensures InRange(Sanitise(input))
  {
    var v := Sanitise(input);
    SystemOfRecordFlag(input);
    HeaderStyleChoice(input);
    forall f ensures v.switches(f) == Int(0) || v.switches(f) == Int(1) {
      HideFlag(input, f);
    }
    forall f ensures v.checks(f) == Int(0) || v.checks(f) == Int(1) {
      CheckFlag(input, f);
    }
    OneOfChoice(input, PrivacyDefault, PrivacyDefaults, "Pub");
    OneOfChoice(input, PrivacyLiving, PrivacyLivingChoices, "Mbr");
  }

  /** The runs of consecutive assignments in the validator, in the source's order. */
  datatype Section = General | Colours | Switches | Checks | Privacy | Custom

  /** The position of a run in the validator. */
  function Position(sec: Section): nat {
    match sec
    case General => 0
    case Colours => 1
    case Switches => 2
    case Checks => 3
    case Privacy => 4
    case Custom => 5
  }

  /** `o` holds, under every key run `sec` assigns, the value `v` gives it. */
  ghost predicate SavedSection(v: Form, o: map<Key, Value>, sec: Section) {
    match sec
    case General =>
      && Version in o && o[Version] == v.version
      && ParentPage in o && o[ParentPage] == v.parentPage
      && PerPage in o && o[PerPage] == v.perPage
      && SystemOfRecord in o && o[SystemOfRecord] == v.systemOfRecord
    case Colours =>
      forall f :: f != CustomStyle && f != CustomPage ==> Text(f) in o && o[Text(f)] == v.texts(f)
    case Switches =>
      && HeaderStyle in o && o[HeaderStyle] == v.headerStyle
      && (forall f :: Hide(f) in o && o[Hide(f)] == v.switches(f))
    case Checks =>
      forall f :: Check(f) in o && o[Check(f)] == v.checks(f)
    case Privacy =>
      && PrivacyDefault in o && o[PrivacyDefault] == v.privacyDefault
      && PrivacyLiving in o && o[PrivacyLiving] == v.privacyLiving
    case Custom =>
      && Text(CustomStyle) in o && o[Text(CustomStyle)] == v.texts(CustomStyle)
      && Text(CustomPage) in o && o[Text(CustomPage)] == v.texts(CustomPage)
  }

  /** `o` keeps every key the validator does not own as `stored` has it,
      and has no other key than those and the owned ones. */
  ghost predicate KeepsOthers(stored: map<Key, Value>, o: map<Key, Value>) {
    && (forall k :: k in o ==> Owned(k) || k in stored)
    && (forall k :: k in stored && !Owned(k) ==> k in o && o[k] == stored[k])
  }

  /** The state after the runs before position `n`: each of them has saved
      its values, and the keys the validator does not own are untouched. */
  ghost predicate Written(stored: map<Key, Value>, v: Form, o: map<Key, Value>, n: nat) {
    && KeepsOthers(stored, o)
    && (Position(General) < n ==> SavedSection(v, o, General))
    && (Position(Colours) < n ==> SavedSection(v, o, Colours))
    && (Position(Switches) < n ==> SavedSection(v, o, Switches))
    && (Position(Checks) < n ==> SavedSection(v, o, Checks))
    && (Position(Privacy) < n ==> SavedSection(v, o, Privacy))
    && (Position(Custom) < n ==> SavedSection(v, o, Custom))
  }

  /** Key `k` is one that run `sec` assigns. */
  predicate InRun(k: Key, sec: Section) {
    match sec
    case General => k == Version || k == ParentPage || k == PerPage || k == SystemOfRecord
    case Colours => k.Text? && k.t != CustomStyle && k.t != CustomPage
    case Switches => k.HeaderStyle? || k.Hide?
    case Checks => k.Check?
    case Privacy => k == PrivacyDefault || k == PrivacyLiving
    case Custom => k == Text(CustomStyle) || k == Text(CustomPage)
  }

  /** `o` agrees with `o0` on every key outside run `sec`. */
  ghost predicate SameOutside(o0: map<Key, Value>, o: map<Key, Value>, sec: Section) {
    forall k :: !InRun(k, sec) ==> (k in o <==> k in o0) && (k in o ==> o[k] == o0[k])
  }

  /** A run leaves the keys the validator does not own alone. */
  lemma KeepsOthersKept(stored: map<Key, Value>, o0: map<Key, Value>, o: map<Key, Value>, sec: Section)
    requires KeepsOthers(stored, o0) && SameOutside(o0, o, sec)
    ensures KeepsOthers(stored, o)
  {
    forall k | k in o && !InRun(k, sec) ensures k in stored || Owned(k) {
      assert k in o0;
    }
  }

  /** A run leaves the values an earlier run saved alone. */
  lemma SavedSectionKept(v: Form, o0: map<Key, Value>, o: map<Key, Value>, sec: Section, earlier: Section)
    requires Position(earlier) < Position(sec)
    requires SavedSection(v, o0, earlier) && SameOutside(o0, o, sec)
    ensures SavedSection(v, o, earlier)
  {
  }

  /** A run that saves its own values and leaves every other key alone
      moves the validator one run further. */
  lemma Advance(stored: map<Key, Value>, v: Form, o0: map<Key, Value>, o: map<Key, Value>, sec: Section)
    requires Written(stored, v, o0, Position(sec))
    requires SameOutside(o0, o, sec) && SavedSection(v, o, sec)
    ensures Written(stored, v, o, Position(sec) + 1)
  {
    KeepsOthersKept(stored, o0, o, sec);
    if Position(General) < Position(sec) { SavedSectionKept(v, o0, o, sec, General); }
    if Position(Colours) < Position(sec) { SavedSectionKept(v, o0, o, sec, Colours); }
    if Position(Switches) < Position(sec) { SavedSectionKept(v, o0, o, sec, Switches); }
    if Position(Checks) < Position(sec) { SavedSectionKept(v, o0, o, sec, Checks); }
    if Position(Privacy) < Position(sec) { SavedSectionKept(v, o0, o, sec, Privacy); }
  }

  /** `o` holds, under every key the validator owns, the value `v` gives it. */
  ghost predicate Saved(v: Form, o: map<Key, Value>) {
    && SavedSection(v, o, General) && SavedSection(v, o, Colours)
    && SavedSection(v, o, Switches) && SavedSection(v, o, Checks)
    && SavedSection(v, o, Privacy) && SavedSection(v, o, Custom)
  }

  /** Version, parent page, page size and system-of-record flag. */
  method WriteGeneral(o0: map<Key, Value>, v: Form) returns (o: map<Key, Value>)
    ensures SavedSection(v, o, General) && SameOutside(o0, o, General)
  {
    o := o0;
    o := o[Version := v.version];
    o := o[ParentPage := v.parentPage];
    o := o[PerPage := v.perPage];
    o := o[SystemOfRecord := v.systemOfRecord];
  }

  /** The ten colour and image fields. */
  method WriteColours(o0: map<Key, Value>, v: Form) returns (o: map<Key, Value>)
    ensures SavedSection(v, o, Colours) && SameOutside(o0, o, Colours)
  {
    o := o0;
    o := o[Text(IndexEvenColor) := v.texts(IndexEvenColor)];
    o := o[Text(IndexOddColor) := v.texts(IndexOddColor)];
    o := o[Text(IndexHdrColor) := v.texts(IndexHdrColor)];
    o := o[Text(BannerBcolor) := v.texts(BannerBcolor)];
    o := o[Text(BannerFcolor) := v.texts(BannerFcolor)];
    o := o[Text(BannerImage) := v.texts(BannerImage)];
    o := o[Text(GroupBcolor) := v.texts(GroupBcolor)];
    o := o[Text(GroupFcolor) := v.texts(GroupFcolor)];
    o := o[Text(GroupImage) := v.texts(GroupImage)];
    o := o[Text(PframeColor) := v.texts(PframeColor)];
    forall k | !InRun(k, Colours) ensures (k in o <==> k in o0) && (k in o ==> o[k] == o0[k]) {
      assert !k.Text? || k.t == CustomStyle || k.t == CustomPage;
    }
    forall f | f != CustomStyle && f != CustomPage ensures Text(f) in o && o[Text(f)] == v.texts(f) {
      match f
      case IndexEvenColor =>
      case IndexOddColor =>
      case IndexHdrColor =>
      case BannerBcolor =>
      case BannerFcolor =>
      case BannerImage =>
      case GroupBcolor =>
      case GroupFcolor =>
      case GroupImage =>
      case PframeColor =>
      case CustomStyle =>
      case CustomPage =>
    }
  }

  /** The header style and the thirteen section switches. */
  method WriteSwitches(o0: map<Key, Value>, v: Form) returns (o: map<Key, Value>)
    ensures SavedSection(v, o, Switches) && SameOutside(o0, o, Switches)
  {
    o := o0;
    o := o[HeaderStyle := v.headerStyle];
    o := o[Hide(HideHeader) := v.switches(HideHeader)];
    o := o[Hide(HideFacts) := v.switches(HideFacts)];
    o := o[Hide(HideBio) := v.switches(HideBio)];
    o := o[Hide(HideAncestors) := v.switches(HideAncestors)];
    o := o[Hide(HideDescendancy) := v.switches(HideDescendancy)];
    o := o[Hide(HideFamilyC) := v.switches(HideFamilyC)];
    o := o[Hide(HideFamilyS) := v.switches(HideFamilyS)];
    o := o[Hide(HideEvidence) := v.switches(HideEvidence)];
    o := o[Hide(HidePictures) := v.switches(HidePictures)];
    o := o[Hide(HideEditLinks) := v.switches(HideEditLinks)];
    o := o[Hide(HideUndefPics) := v.switches(HideUndefPics)];
    o := o[Hide(HideDates) := v.switches(HideDates)];
    o := o[Hide(HidePlaces) := v.switches(HidePlaces)];
    forall f ensures Hide(f) in o && o[Hide(f)] == v.switches(f) {
      match f
      case HideHeader =>
      case HideFacts =>
      case HideBio =>
      case HideAncestors =>
      case HideDescendancy =>
      case HideFamilyC =>
      case HideFamilyS =>
      case HideEvidence =>
      case HidePictures =>
      case HideEditLinks =>
      case HideUndefPics =>
      case HideDates =>
      case HidePlaces =>
    }
  }

  /** The four check boxes. */
  method WriteChecks(o0: map<Key, Value>, v: Form) returns (o: map<Key, Value>)
    ensures SavedSection(v, o, Checks) && SameOutside(o0, o, Checks)
  {
    o := o0;
    o := o[Check(HideDonation) := v.checks(HideDonation)];
    o := o[Check(IsEditor) := v.checks(IsEditor)];
    o := o[Check(Debug) := v.checks(Debug)];
    o := o[Check(PostPage) := v.checks(PostPage)];
    forall f ensures Check(f) in o && o[Check(f)] == v.checks(f) {
      match f
      case HideDonation =>
      case IsEditor =>
      case Debug =>
      case PostPage =>
    }
  }

  /** The two privacy levels. */
  method WritePrivacy(o0: map<Key, Value>, v: Form) returns (o: map<Key, Value>)
    ensures SavedSection(v, o, Privacy) && SameOutside(o0, o, Privacy)
  {
    o := o0;
    o := o[PrivacyDefault := v.privacyDefault];
    o := o[PrivacyLiving := v.privacyLiving];
  }

  /** The custom style sheet and the custom page template. */
  method WriteCustom(o0: map<Key, Value>, v: Form) returns (o: map<Key, Value>)
    ensures SavedSection(v, o, Custom) && SameOutside(o0, o, Custom)
  {
    o := o0;
    o := o[Text(CustomStyle) := v.texts(CustomStyle)];
    o := o[Text(CustomPage) := v.texts(CustomPage)];
  }

  /** The assignments of `persona_options_validate`, run by run in the
      source's order, with the values of `v`. */
  method WriteForm(stored: map<Key, Value>, v: Form) returns (options: map<Key, Value>)
    ensures Saved(v, options) && KeepsOthers(stored, options)
  {
    var o1 := WriteGeneral(stored, v);
    Advance(stored, v, stored, o1, General);
    var o2 := WriteColours(o1, v);
    Advance(stored, v, o1, o2, Colours);
    var o3 := WriteSwitches(o2, v);
    Advance(stored, v, o2, o3, Switches);
    var o4 := WriteChecks(o3, v);
    Advance(stored, v, o3, o4, Checks);
    var o5 := WritePrivacy(o4, v);
    Advance(stored, v, o4, o5, Privacy);
    options := WriteCustom(o5, v);
    Advance(stored, v, o5, options, Custom);
  }

  /** What every saved option array satisfies, whatever was submitted. */
  ghost predicate Validated(o: map<Key, Value>) {
    && Version in o && o[Version] == Str(PersonaVersion)
    && ParentPage in o && o[ParentPage].Int? && InInt64(o[ParentPage].i)
    && PerPage in o && o[PerPage].Int? && InInt64(o[PerPage].i)
    && SystemOfRecord in o && (o[SystemOfRecord] == Int(0) || o[SystemOfRecord] == Int(1))
    && HeaderStyle in o && (o[HeaderStyle] == Int(1) || o[HeaderStyle] == Int(2))
    && PrivacyDefault in o && o[PrivacyDefault].Str? && o[PrivacyDefault].s in PrivacyDefaults
    && PrivacyLiving in o && o[PrivacyLiving].Str? && o[PrivacyLiving].s in PrivacyLivingChoices
    && (forall f :: Text(f) in o && o[Text(f)].Str?)
    && (forall f :: Hide(f) in o && (o[Hide(f)] == Int(0) || o[Hide(f)] == Int(1)))
    && (forall f :: Check(f) in o && (o[Check(f)] == Int(0) || o[Check(f)] == Int(1)))
  }

  /** An array holding a form whose values are in range is valid. */
  lemma SavedValidated(v: Form, o: map<Key, Value>)
    requires Saved(v, o) && InRange(v)
    ensures Validated(o)
  {
    forall f ensures Text(f) in o && o[Text(f)].Str? {
      if f == CustomStyle || f == CustomPage {
      } else {
        assert o[Text(f)] == v.texts(f);
      }
    }
  }

  /** `persona_options_validate`: the stored options with every key the
      form owns overwritten by its sanitised value. */
  method ValidateOptions(stored: map<Key, Value>, input: Input) returns (options: map<Key, Value>)
    ensures Saved(Sanitise(input), options) && Validated(options)
    ensures KeepsOthers(stored, options)
  {
    options := WriteForm(stored, Sanitise(input));
    SanitiseInRange(input);
    SavedValidated(Sanitise(input), options);
  }
}
