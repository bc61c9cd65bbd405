/** The in-memory Customer object (model/Customer.java with the fields it inherits from AbstractUser).
    The services hold on to this object and change its booking fields through the setters; it is not
    kept in step with the customer's database row. */
module CustomerModel {
  import opened Wrappers

  class Customer {
    const customerId: int
    const userId: int
    const name: string
    /** The boxed `Integer tableId`: None is null. */
    var tableId: Option<int>
    var checkedIn: bool

    /** The Java field defaults leave a new customer with no table and not checked in. */
    constructor (customerId: int, userId: int, name: string)
      ensures this.customerId == customerId && this.userId == userId && this.name == name
      ensures tableId == None && !checkedIn
    {
      this.customerId := customerId;
      this.userId := userId;
      this.name := name;
      tableId := None;
      checkedIn := false;
    }

    method SetTableId(tableId: Option<int>)
      modifies this`tableId
      ensures this.tableId == tableId
      ensures checkedIn == old(checkedIn)
    {
      this.tableId := tableId;
    }

    method SetCheckedIn(checkedIn: bool)
      modifies this`checkedIn
      ensures this.checkedIn == checkedIn
      ensures tableId == old(tableId)
    {
      this.checkedIn := checkedIn;
    }
  }
}
