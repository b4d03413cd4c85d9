/** The event record shared by extraction, editing and export. */
module Types {

  /** `CalendarEvent`: five strings; the two dates are meant to hold ISO 8601 date-times. */
  datatype CalendarEvent = CalendarEvent(
    title: string,
    startDate: string,
    endDate: string,
    location: string,
    description: string)

  /** `keyof CalendarEvent`. */
  datatype Field = Title | StartDate | EndDate | Location | Description

  /** `event[field]`. */
  function Get(e: CalendarEvent, f: Field): string
  {
    match f
    case Title => e.title
    case StartDate => e.startDate
    case EndDate => e.endDate
    case Location => e.location
    case Description => e.description
  }

  /** The property name of a field, as it is spelled in JSON and in the response schema. */
  function FieldName(f: Field): (name: string)
    ensures name != ""
  {
    match f
    case Title => "title"
    case StartDate => "startDate"
    case EndDate => "endDate"
    case Location => "location"
    case Description => "description"
  }

  /** `{ ...e, [f]: v }`: the record with one field replaced and the other four kept. */
  function WithField(e: CalendarEvent, f: Field, v: string): (r: CalendarEvent)
    ensures Get(r, f) == v
    ensures forall g :: g != f ==> Get(r, g) == Get(e, g)
  {
    match f
    case Title => e.(title := v)
    case StartDate => e.(startDate := v)
    case EndDate => e.(endDate := v)
    case Location => e.(location := v)
    case Description => e.(description := v)
  }

  /** A record is determined by its five fields. */
  lemma FieldsDetermineEvent(a: CalendarEvent, b: CalendarEvent)
    requires forall f :: Get(a, f) == Get(b, f)
    ensures a == b
  {
    assert Get(a, Title) == Get(b, Title);
    assert Get(a, StartDate) == Get(b, StartDate);
    assert Get(a, EndDate) == Get(b, EndDate);
    assert Get(a, Location) == Get(b, Location);
    assert Get(a, Description) == Get(b, Description);
  }

  /** Writing back the value a field already has changes nothing; a second write to the same field wins. */
  lemma WithFieldLaws(e: CalendarEvent, f: Field, v: string, w: string)
    ensures WithField(e, f, Get(e, f)) == e
    ensures WithField(WithField(e, f, v), f, w) == WithField(e, f, w)
  {
    var a := WithField(e, f, Get(e, f));
    forall g ensures Get(a, g) == Get(e, g) {
    }
    FieldsDetermineEvent(a, e);
    var b, c := WithField(WithField(e, f, v), f, w), WithField(e, f, w);
    forall g ensures Get(b, g) == Get(c, g) {
    }
    FieldsDetermineEvent(b, c);
  }

  /** Edits of two different fields commute. */
  lemma WithFieldCommute(e: CalendarEvent, f: Field, v: string, g: Field, w: string)
    requires f != g
    ensures WithField(WithField(e, f, v), g, w) == WithField(WithField(e, g, w), f, v)
  {
    FieldsDetermineEvent(WithField(WithField(e, f, v), g, w), WithField(WithField(e, g, w), f, v));
  }

  /** Distinct fields have distinct property names. */
  lemma FieldNamesDistinct(f: Field, g: Field)
    ensures FieldName(f) == FieldName(g) ==> f == g
  {
  }
}
