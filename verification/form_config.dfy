/** The idea form's configuration (FormConfigContext.js): the field record,
    the built-in default form, and how the configuration is loaded from and
    saved to the browser's storage. */
module FormConfig {
  import opened Wrappers

  /** One form field. A property the JavaScript object does not have is
      `None` (`options` is absent on the default text fields). */
  datatype Field = Field(
    id: int,
    name: string,
    labelText: string,
    fieldType: string,
    required: bool,
    options: Option<seq<string>>,
    placeholder: Option<string>,
    dependsOn: Option<string>,
    dependsOnValue: Option<string>,
    className: string)

  type Config = seq<Field>

  /** Field types whose `options` are offered as choices. */
  predicate HasChoices(f: Field)
  {
    f.fieldType == "dropdown" || f.fieldType == "radio"
  }

  function Plain(id: int, name: string, labelText: string, fieldType: string, placeholder: Option<string>,
                 className: string): Field
  {
    Field(id, name, labelText, fieldType, true, None, placeholder, None, None, className)
  }

  function Choice(id: int, name: string, labelText: string, fieldType: string, options: seq<string>,
                  className: string): Field
  {
    Field(id, name, labelText, fieldType, true, Some(options), None, None, None, className)
  }

  /** `defaultFormConfig`. */
  const Default: Config := [
    Plain(1, "employeeName", "Employee Name", "text", None, ""),
    Choice(2, "company", "Company", "dropdown",
           ["Simon India Ltd", "Zuari Management Services Ltd", "Zuari Agro Chemicals Ltd",
            "Paradeep Phosphates Ltd"], ""),
    Plain(3, "ideaTitle", "Idea Title", "text", Some("e.g., Automated Customer Support Chatbot"), "md:col-span-2"),
    Choice(4, "ideaCategory", "Idea Category", "dropdown",
           ["AI Leadership / Thought Leadership", "Productivity Enhancement Tools", "Optimization"], ""),
    Choice(5, "departmentsImpacted", "Department Impacted", "dropdown",
           ["Finance", "HR", "Operations", "Sales", "IT", "Supply Chain"], ""),
    Plain(6, "problemStatement", "Problem Statement", "textarea", Some("Describe the current problem."),
          "md:col-span-2"),
    Plain(7, "proposedSolution", "Proposed Solution", "textarea", Some("Describe your proposed solution."),
          "md:col-span-2"),
    Plain(8, "expectedBenefits", "Expected Benefits / ROI", "textarea",
          Some("e.g., Cost savings, efficiency gains."), "md:col-span-2"),
    Choice(9, "availabilityOfData", "Availability of Data", "radio", ["Yes", "No"], "md:col-span-2"),
    Field(10, "dataSources", "Data Sources", "textarea", true, None, Some("Describe the data sources."),
          Some("availabilityOfData"), Some("Yes"), ""),
    Plain(11, "estimatedCost", "Estimated Cost / Resource Need", "textarea",
          Some("e.g., Software licenses, personnel."), "md:col-span-2"),
    Choice(12, "implementationTimeline", "Estimated Implementation Timeline", "dropdown",
           ["0–3 months", "3–6 months", "6–12 months", "12+ months"], "")
  ]

  /** The position of the field called `name`, if any (`config.find(f => f.name === name)`). */
  function FindByName(c: Config, name: string): (r: Option<nat>)
    ensures r.Some? ==> r.value < |c| && c[r.value].name == name
    ensures r.Some? ==> forall k :: 0 <= k < r.value ==> c[k].name != name
    ensures r.None? ==> forall k :: 0 <= k < |c| ==> c[k].name != name
  {
    if |c| == 0 then None
    else if c[0].name == name then Some(0)
    else match FindByName(c[1..], name)
      case None => None
      case Some(k) => Some(k + 1)
  }

  /** The default form has twelve fields numbered 1 to 12, all required, with
      distinct names. */
  lemma DefaultShape()
    ensures |Default| == 12
    ensures forall k :: 0 <= k < 12 ==> Default[k].id == k + 1 && Default[k].required
    ensures forall i, j :: 0 <= i < j < 12 ==> Default[i].name != Default[j].name
  {
  }

  /** Every choice field of the default form offers at least one option, and
      only choice fields carry options. */
  lemma DefaultChoicesHaveOptions()
    ensures forall k :: 0 <= k < |Default| ==>
      (HasChoices(Default[k]) <==> Default[k].options.Some?)
    ensures forall k :: 0 <= k < |Default| && HasChoices(Default[k]) ==> |Default[k].options.value| > 0
  {
  }

  /** The one conditional field: "dataSources" (the tenth) is shown when
      "availabilityOfData" (the ninth) is "Yes", which is one of that field's
      options. Names being distinct, these are the fields `find` returns. */
  lemma DefaultDependency()
    ensures Default[9].name == "dataSources" && Default[8].name == "availabilityOfData"
    ensures Default[9].dependsOn == Some("availabilityOfData") && Default[9].dependsOnValue == Some("Yes")
    ensures "Yes" in Default[8].options.value
  {
  }

  /** No other default field depends on anything. */
  lemma DefaultOthersUnconditional()
    ensures forall k :: 0 <= k < |Default| && k != 9 ==> Default[k].dependsOn.None?
  {
  }

  /** The first field with a name is the one found. */
  lemma {:induction false} FindFirst(c: Config, name: string, k: nat)
    requires k < |c| && c[k].name == name
    requires forall j :: 0 <= j < k ==> c[j].name != name
    ensures FindByName(c, name) == Some(k)
  {
    if k > 0 {
      FindFirst(c[1..], name, k - 1);
    }
  }

  // ---------------------------------------------------------------------
  // storage

  /** The `formConfig` storage entry: what `JSON.stringify` wrote, or text
      `JSON.parse` rejects. An absent entry (or the empty string) is `None`. */
  datatype Stored = Serialized(config: Config) | Unparsable

  /** The initial state: the stored configuration if there is one and it
      parses, the default otherwise. */
  function Load(stored: Option<Stored>): (c: Config)
    ensures stored.None? || stored == Some(Unparsable) ==> c == Default
    ensures stored.Some? && stored.value.Serialized? ==> c == stored.value.config
  {
    match stored
    case None => Default
    case Some(Unparsable) => Default
    case Some(Serialized(config)) => config
  }

  /** The provider's state: the live configuration and the storage entry. */
  datatype Provider = Provider(formConfig: Config, stored: Option<Stored>)

  function Init(stored: Option<Stored>): (p: Provider)
    ensures p.stored == stored && p.formConfig == Load(stored)
  {
    Provider(Load(stored), stored)
  }

  /** `saveFormConfig`: the entry is overwritten with the new configuration
      (nothing of the old one is merged in) and it becomes the live one. */
  function Save(p: Provider, config: Config): (r: Provider)
    ensures r.formConfig == config
    ensures Load(r.stored) == config
  {
    Provider(config, Some(Serialized(config)))
  }

  /** What was saved is what the next page load starts from, whatever was
      stored before, and saving again replaces it entirely. */
  lemma SaveThenLoad(p: Provider, a: Config, b: Config)
    ensures Init(Save(p, a).stored).formConfig == a
    ensures Save(Save(p, a), b) == Save(p, b)
  {
  }
}
