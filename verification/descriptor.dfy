/** The normalized field descriptor that the builder produces, the populate
    pass fills in and the renderer prints. */
module Descriptor {
  import opened Wrappers
  import opened Json

  /** One answerable sub-field. The program keeps it as a dict; each key it ever
      reads or writes is a field here, and `None` stands for a key that is absent.
      - id, title (`label`), kind (`type`), required: always present;
      - options: the option labels, or `None` for free-text kinds;
      - subLabel: the `' - '`-joined grid row label (`subfield_label`);
      - defaultValue: the synthesized answer (`default_value`);
      - containerName, name: the keys the renderer's comment mode reads
        (`container_name`, `name`), which the builder never sets. */
  datatype Field = Field(
    id: J,
    title: J,
    kind: J,
    required: bool,
    options: Option<seq<J>>,
    subLabel: Option<string>,
    defaultValue: Option<J>,
    containerName: Option<J>,
    name: Option<J>)
}
