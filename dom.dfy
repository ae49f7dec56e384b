/** The element node whose attributes a directive rewrites. */
module Dom {
  import opened Wrappers

  /** A tag's attributes: exact attribute name to attribute value. */
  type Attributes = map<string, string>

  /** The value of attribute `name`, or None when the tag has no such attribute. */
  function Lookup(attrs: Attributes, name: string): Option<string>
  {
    if name in attrs then Some(attrs[name]) else None
  }

  /** A markup element; its attribute bag is updated in place. */
  class Tag {
    var attributes: Attributes

    constructor (attrs: Attributes)
      ensures attributes == attrs
    {
      attributes := attrs;
    }

    /** The attribute's value, or None (Java's null) when it is absent. */
    method GetAttributeValue(name: string) returns (v: Option<string>)
      ensures v == Lookup(attributes, name)
    {
      if name in attributes {
        v := Some(attributes[name]);
      } else {
        v := None;
      }
    }

    /** Adds the attribute, or replaces its value when it is already present. */
    method SetAttribute(name: string, value: string)
      modifies this
      ensures attributes == old(attributes)[name := value]
    {
      attributes := attributes[name := value];
    }

    /** Deletes the attribute; a tag without it is left as it is. */
    method RemoveAttribute(name: string)
      modifies this
      ensures attributes == old(attributes) - {name}
    {
      attributes := attributes - {name};
    }
  }
}
