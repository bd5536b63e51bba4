/**
 The plugin's configuration: the default template and `Jira.configure`, which
 overlays the configuration the bot owner supplied on that template.
 */
module Configuration {
  import opened Wrappers

  /** The kinds of value the template holds: a string, a list of strings, a boolean. */
  datatype Value = Text(s: string) | Texts(items: seq<string>) | Flag(b: bool)

  /** A configuration dictionary. */
  type Config = map<string, Value>

  const UrlKey := "URL"
  const ProjectsKey := "PROJECTS"

  /** `CONFIG_TEMPLATE`: the defaults offered to the bot owner. */
  const Template: Config := map[
    UrlKey := Text("http://jira.example.com"),
    ProjectsKey := Texts(["FOO", "BAR"]),
    "KERBEROS" := Flag(true),
    "USERNAME" := Text("foo"),
    "PASSWORD" := Text("bar")
  ]

  /** Python truthiness of `self.config`: absent (`None`) and `{}` are false. */
  predicate Truthy(config: Option<Config>) {
    config.Some? && config.value != map[]
  }

  /** The configuration `Jira.configure` hands to the host: the supplied
      entries win, every template entry not supplied is kept, and an absent
      or empty supply leaves the template as it is. */
  function Configure(supplied: Option<Config>): (c: Config)
    ensures supplied.None? || supplied.value == map[] ==> c == Template
    ensures supplied.Some? ==> c.Keys == Template.Keys + supplied.value.Keys
    ensures supplied.Some? ==> forall k :: k in supplied.value ==> c[k] == supplied.value[k]
    ensures forall k :: k in Template && (supplied.None? || k !in supplied.value) ==> c[k] == Template[k]
  {
    if supplied.Some? && supplied.value != map[] then Template + supplied.value else Template
  }

  /** A configured plugin always has a truthy configuration holding both the
      URL and the project list (jira.py:31-35 over the template at
      jira.py:8-13). The last clause, that configuring again with the result
      changes nothing, is not something the plugin relies on or documents: it
      is a consequence of the overlay, stated to pin down that the overlay
      keeps every supplied value. */
  lemma ConfigureSettles(supplied: Option<Config>)
    ensures Truthy(Some(Configure(supplied)))
    ensures UrlKey in Configure(supplied) && ProjectsKey in Configure(supplied)
    ensures Configure(Some(Configure(supplied))) == Configure(supplied)
  {
    assert UrlKey in Template;
  }
}
