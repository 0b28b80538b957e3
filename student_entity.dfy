/** The persisted, mutable form of a student (model/entity/StudentEntity.java). */
module Entity {
  import opened Wrappers

  class StudentEntity {
    var id: Option<int>
    var firstName: Option<string>
    var lastName: Option<string>

    /** The all-fields constructor stores exactly what it is given. */
    constructor (id: Option<int>, firstName: Option<string>, lastName: Option<string>)
      ensures this.id == id && this.firstName == firstName && this.lastName == lastName
    {
      this.id := id;
      this.firstName := firstName;
      this.lastName := lastName;
    }

    /** The no-argument constructor leaves every field null. */
    constructor Empty()
      ensures id == None && firstName == None && lastName == None
    {
      id := None;
      firstName := None;
      lastName := None;
    }

    function GetId(): (r: Option<int>)
      reads this
      ensures r == id
    {
      id
    }

    method SetId(id: Option<int>)
      modifies this
      ensures this.id == id
      ensures firstName == old(firstName) && lastName == old(lastName)
    {
      this.id := id;
    }

    function GetFirstName(): (r: Option<string>)
      reads this
      ensures r == firstName
    {
      firstName
    }

    method SetFirstName(firstName: Option<string>)
      modifies this
      ensures this.firstName == firstName
      ensures id == old(id) && lastName == old(lastName)
    {
      this.firstName := firstName;
    }

    function GetLastName(): (r: Option<string>)
      reads this
      ensures r == lastName
    {
      lastName
    }

    method SetLastName(lastName: Option<string>)
      modifies this
      ensures this.lastName == lastName
      ensures id == old(id) && firstName == old(firstName)
    {
      this.lastName := lastName;
    }
  }
}
