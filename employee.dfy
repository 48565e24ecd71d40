/**
 * The employee entity: a mutable bean of six fields, and the value it holds
 * at any moment.
 */
module EmployeeModel {
  import opened JavaRuntime

  /** The contents of an employee at one moment. */
  datatype EmployeeData = EmployeeData(
    id: JString,
    name: JString,
    salary: Int32,
    age: Int32,
    title: JString,
    email: JString)

  /** The employee bean: every field is read by its getter and replaced by its setter. */
  class Employee {
    var id: JString
    var name: JString
    var salary: Int32
    var age: Int32
    var title: JString
    var email: JString

    /** The six fields taken together. */
    function Value(): EmployeeData
      reads this
    {
      EmployeeData(id, name, salary, age, title, email)
    }

    /** The all-arguments constructor stores each argument in its own field. */
    constructor (id: JString, name: JString, salary: Int32, age: Int32, title: JString, email: JString)
      ensures Value() == EmployeeData(id, name, salary, age, title, email)
    {
      this.id := id;
      this.name := name;
      this.salary := salary;
      this.age := age;
      this.title := title;
      this.email := email;
    }

    /** The no-arguments constructor leaves Java's defaults: null references, zero numbers. */
    constructor Default()
      ensures Value() == EmployeeData(None, None, 0, 0, None, None)
    {
      id, name, title, email := None, None, None, None;
      salary, age := 0, 0;
    }

    method GetId() returns (r: JString)
      ensures r == Value().id
    {
      r := id;
    }

    method GetName() returns (r: JString)
      ensures r == Value().name
    {
      r := name;
    }

    method GetSalary() returns (r: Int32)
      ensures r == Value().salary
    {
      r := salary;
    }

    method GetAge() returns (r: Int32)
      ensures r == Value().age
    {
      r := age;
    }

    method GetTitle() returns (r: JString)
      ensures r == Value().title
    {
      r := title;
    }

    method GetEmail() returns (r: JString)
      ensures r == Value().email
    {
      r := email;
    }

    method SetId(id: JString)
      modifies this
      ensures Value() == old(Value()).(id := id)
    {
      this.id := id;
    }

    method SetName(name: JString)
      modifies this
      ensures Value() == old(Value()).(name := name)
    {
      this.name := name;
    }

    method SetSalary(salary: Int32)
      modifies this
      ensures Value() == old(Value()).(salary := salary)
    {
      this.salary := salary;
    }

    method SetAge(age: Int32)
      modifies this
      ensures Value() == old(Value()).(age := age)
    {
      this.age := age;
    }

    method SetTitle(title: JString)
      modifies this
      ensures Value() == old(Value()).(title := title)
    {
      this.title := title;
    }

    method SetEmail(email: JString)
      modifies this
      ensures Value() == old(Value()).(email := email)
    {
      this.email := email;
    }
  }
}
